/** The hand-written central directory parser, a writer of the same bytes, and the two directions between them. */
module ZipDirectory {
  import opened Bytes
  import opened ArchivePath
  import Utf8

  const END_SIGNATURE := 0x0605_4b50
  const ENTRY_SIGNATURE := 0x0201_4b50
  const LOCAL_SIGNATURE := 0x0403_4b50
  const MAX_ENTRIES := 500

  datatype ZipError = MissingEnd | FieldOutOfBounds | MultiDisk | Zip64 | TooManyEntries | DirectoryRange | EntrySignature
                    | EntryRange | NotUtf8 | IllegalName | DuplicateName | Rejected(reason: PathError) | TrailingData

  // ---- Little-endian fields ----

  function ReadU16(bytes: seq<Byte>, offset: nat): Result<nat, ZipError> {
    if offset + 2 <= |bytes| then Ok(bytes[offset] as int + 0x100 * bytes[offset + 1] as int) else Err(FieldOutOfBounds)
  }

  function ReadU32(bytes: seq<Byte>, offset: nat): Result<nat, ZipError> {
    if offset + 4 <= |bytes| then
      Ok(bytes[offset] as int + 0x100 * bytes[offset + 1] as int + 0x1_0000 * bytes[offset + 2] as int + 0x100_0000 * bytes[offset + 3] as int)
    else Err(FieldOutOfBounds)
  }

  /** The low `k` bytes of `n`, least significant first; a cast drops the rest. */
  function LeBytes(n: nat, k: nat): (b: seq<Byte>)
    ensures |b| == k
    decreases k
  {
    if k == 0 then [] else [n % 0x100] + LeBytes(n / 0x100, k - 1)
  }

  function Le16(n: nat): seq<Byte> { LeBytes(n, 2) }

  function Le32(n: nat): seq<Byte> { LeBytes(n, 4) }

  /** `part` stands in `bytes` at `a`. */
  predicate At(bytes: seq<Byte>, a: nat, part: seq<Byte>) {
    a + |part| <= |bytes| && bytes[a..a + |part|] == part
  }

  lemma AtSplit(bytes: seq<Byte>, a: nat, p: seq<Byte>, q: seq<Byte>)
    requires At(bytes, a, p + q)
    ensures At(bytes, a, p) && At(bytes, a + |p|, q)
  {
    var whole := bytes[a..a + |p + q|];
    assert bytes[a..a + |p|] == whole[..|p|] == p;
    assert bytes[a + |p|..a + |p| + |q|] == whole[|p|..] == q;
  }

  lemma LeDigits(n: nat, k: nat)
    requires k > 0
    ensures LeBytes(n, k)[0] == n % 0x100 && LeBytes(n, k)[1..] == LeBytes(n / 0x100, k - 1)
  {}

  lemma ReadLe16(bytes: seq<Byte>, offset: nat, n: nat)
    requires n < U16_LIMIT && At(bytes, offset, Le16(n))
    ensures ReadU16(bytes, offset) == Ok(n)
  {
    var f := bytes[offset..offset + 2];
    LeDigits(n, 2);
    LeDigits(n / 0x100, 1);
    assert bytes[offset] == f[0] && bytes[offset + 1] == f[1] == f[1..][0];
  }

  lemma ReadLe32(bytes: seq<Byte>, offset: nat, n: nat)
    requires n < U32_LIMIT && At(bytes, offset, Le32(n))
    ensures ReadU32(bytes, offset) == Ok(n)
  {
    var f := bytes[offset..offset + 4];
    var a := n / 0x100;
    var b := a / 0x100;
    var c := b / 0x100;
    LeDigits(n, 4);
    LeDigits(a, 3);
    LeDigits(b, 2);
    LeDigits(c, 1);
    assert bytes[offset] == f[0] && bytes[offset + 1] == f[1] == f[1..][0];
    assert bytes[offset + 2] == f[2] == f[1..][1..][0] && bytes[offset + 3] == f[3] == f[1..][1..][1..][0];
    assert n == n % 0x100 + 0x100 * a && a == a % 0x100 + 0x100 * b && b == b % 0x100 + 0x100 * c && c < 0x100;
  }

  // ---- End of central directory ----

  predicate IsEnd(bytes: seq<Byte>, p: nat) {
    && p + 22 <= |bytes|
    && ReadU32(bytes, p) == Ok(END_SIGNATURE)
    && ReadU16(bytes, p + 20) == Ok(|bytes| - p - 22)
  }

  /** The last end record strictly below `limit`. */
  function LastEndBelow(bytes: seq<Byte>, limit: nat): (r: Option<nat>)
    ensures r == None ==> forall p :: 0 <= p < limit ==> !IsEnd(bytes, p)
    ensures r.Some? ==> r.value < limit && IsEnd(bytes, r.value) && forall p :: r.value < p < limit ==> !IsEnd(bytes, p)
  {
    if limit == 0 then None
    else if IsEnd(bytes, limit - 1) then Some(limit - 1)
    else LastEndBelow(bytes, limit - 1)
  }

  lemma LastEndIs(bytes: seq<Byte>, limit: nat, p: nat)
    requires p < limit && IsEnd(bytes, p) && forall q :: p < q < limit ==> !IsEnd(bytes, q)
    ensures LastEndBelow(bytes, limit) == Some(p)
  {}

  function FindEnd(bytes: seq<Byte>): Option<nat> { LastEndBelow(bytes, |bytes|) }

  /** Scans at most 65535 comment bytes from the end, which loses nothing: a record further up has no room in its
      comment length. */
  method FindEndOfCentralDirectory(bytes: seq<Byte>) returns (r: Option<nat>)
    ensures r == FindEnd(bytes)
  {
    if |bytes| < 22 {
      return None;
    }
    var first := if |bytes| < 22 + 65535 then 0 else |bytes| - (22 + 65535);
    var position := |bytes| - 21;
    while position > first
      invariant first <= position <= |bytes| - 21
      invariant forall p :: position <= p ==> !IsEnd(bytes, p)
    {
      position := position - 1;
      var signature := ReadU32(bytes, position);
      if signature == Ok(END_SIGNATURE) {
        var commentLen := ReadU16(bytes, position + 20);
        assert commentLen.Ok?;
        if position + 22 + commentLen.value == |bytes| {
          LastEndIs(bytes, |bytes|, position);
          return Some(position);
        }
      }
      assert !IsEnd(bytes, position);
    }
    assert forall p :: 0 <= p < first ==> !IsEnd(bytes, p);
    return None;
  }

  // ---- Entries ----

  /** One directory entry: where its header starts and ends, its name without trailing slashes, its declared size. */
  datatype Entry = Entry(start: nat, next: nat, name: string, isDir: bool, size: nat)

  predicate HasDots(s: string) { exists i :: 0 <= i < |s| - 1 && s[i] == '.' && s[i + 1] == '.' }

  predicate HasIllegalParts(s: string) { '\\' in s || HasDots(s) || (s != "" && s[0] == '/') || ':' in s }

  function Normalized(name: string): string { if EndsWithSlash(name) then TrimEndSlashes(name) else name }

  /** How names are decoded and which relative paths they may become. */
  datatype Rules = Rules(decode: seq<Byte> -> Option<string>, path: (string, bool) -> Result<seq<string>, PathError>)

  /** UTF-8 and the package layout; `alnum` is the library's Unicode test for letters and digits. */
  function PackageRules(alnum: char -> bool): Rules {
    Rules(Utf8.Decode, (name, isDir) => RelativePath(name, isDir, alnum))
  }

  /** The fixed part of a header: the declared size, the length of the name, and where the next header starts. */
  datatype Header = Header(size: nat, nameLen: nat, next: nat)

  function HeaderAt(bytes: seq<Byte>, cursor: nat, end: nat): (r: Result<Header, ZipError>)
    ensures r.Ok? ==> cursor + 46 + r.value.nameLen <= r.value.next <= end
  {
    var signature :- ReadU32(bytes, cursor);
    if signature != ENTRY_SIGNATURE then Err(EntrySignature)
    else
      var size :- ReadU32(bytes, cursor + 24);
      var nameLen :- ReadU16(bytes, cursor + 28);
      var extraLen :- ReadU16(bytes, cursor + 30);
      var commentLen :- ReadU16(bytes, cursor + 32);
      var next := cursor + 46 + nameLen + extraLen + commentLen;
      if next > end then Err(EntryRange) else Ok(Header(size, nameLen, next))
  }

  function NamedEntry(start: nat, h: Header, rawName: seq<Byte>, rules: Rules): Result<Entry, ZipError> {
    match rules.decode(rawName)
    case None => Err(NotUtf8)
    case Some(name) =>
      if HasIllegalParts(Normalized(name)) then Err(IllegalName)
      else Ok(Entry(start, h.next, Normalized(name), EndsWithSlash(name), h.size))
  }

  /** The entry whose header starts at `cursor`, before the checks that compare it with others. */
  function EntryAt(bytes: seq<Byte>, cursor: nat, end: nat, rules: Rules): Result<Entry, ZipError>
    requires end <= |bytes|
  {
    var h :- HeaderAt(bytes, cursor, end);
    NamedEntry(cursor, h, bytes[cursor + 46..cursor + 46 + h.nameLen], rules)
  }

  /** How one directory reads the header at a position, and which entries its layout admits. */
  datatype Checks = Checks(read: nat -> Result<Entry, ZipError>, refuse: Entry -> Option<ZipError>)

  function LayoutRefusal(e: Entry, rules: Rules): Option<ZipError> {
    match rules.path(e.name, e.isDir)
    case Err(reason) => Some(Rejected(reason))
    case Ok(_) => None
  }

  function ChecksOf(bytes: seq<Byte>, end: nat, rules: Rules): Checks
    requires end <= |bytes|
  {
    Checks((cursor: nat) => if end <= |bytes| then EntryAt(bytes, cursor, end, rules) else Err(DirectoryRange),
           e => LayoutRefusal(e, rules))
  }

  /** The next entry with all its checks, in the order they are made. */
  function CheckedEntry(c: Checks, cursor: nat, seen: set<string>): Result<Entry, ZipError> {
    var e :- c.read(cursor);
    if e.name in seen then Err(DuplicateName)
    else match c.refuse(e)
      case Some(error) => Err(error)
      case None => Ok(e)
  }

  function ParseEntries(c: Checks, cursor: nat, end: nat, count: nat, seen: set<string>): Result<seq<Entry>, ZipError>
    decreases count
  {
    if count == 0 then
      if cursor == end then Ok([]) else Err(TrailingData)
    else
      var e :- CheckedEntry(c, cursor, seen);
      var rest :- ParseEntries(c, e.next, end, count - 1, seen + {e.name});
      Ok([e] + rest)
  }

  /** Where the end record says the directory is. */
  datatype Extent = Extent(offset: nat, end: nat, count: nat)

  function ReadExtent(bytes: seq<Byte>, eocd: nat): (r: Result<Extent, ZipError>)
    ensures r.Ok? ==> r.value.offset <= r.value.end == eocd <= |bytes|
  {
    var disk :- ReadU16(bytes, eocd + 4);
    var centralDisk :- ReadU16(bytes, eocd + 6);
    var diskEntries :- ReadU16(bytes, eocd + 8);
    var totalEntries :- ReadU16(bytes, eocd + 10);
    var size :- ReadU32(bytes, eocd + 12);
    var offset :- ReadU32(bytes, eocd + 16);
    if disk != 0 || centralDisk != 0 || diskEntries != totalEntries then Err(MultiDisk)
    else if totalEntries == U16_LIMIT - 1 || size == U32_LIMIT - 1 || offset == U32_LIMIT - 1 then Err(Zip64)
    else if totalEntries > MAX_ENTRIES then Err(TooManyEntries)
    else if offset + size != eocd || offset + size > |bytes| then Err(DirectoryRange)
    else Ok(Extent(offset, offset + size, totalEntries))
  }

  function ParseDirectory(bytes: seq<Byte>, rules: Rules): Result<seq<Entry>, ZipError> {
    match FindEnd(bytes)
    case None => Err(MissingEnd)
    case Some(eocd) =>
      var x :- ReadExtent(bytes, eocd);
      ParseEntries(ChecksOf(bytes, x.end, rules), x.offset, x.end, x.count, {})
  }

  function Prepend(entries: seq<Entry>, r: Result<seq<Entry>, ZipError>): Result<seq<Entry>, ZipError> {
    if r.Ok? then Ok(entries + r.value) else r
  }

  lemma PrependNext(c: Checks, cursor: nat, end: nat, count: nat, seen: set<string>, entries: seq<Entry>)
    requires count > 0
    ensures var e := CheckedEntry(c, cursor, seen);
            Prepend(entries, ParseEntries(c, cursor, end, count, seen)) ==
              if e.Err? then Err(e.error)
              else Prepend(entries + [e.value], ParseEntries(c, e.value.next, end, count - 1, seen + {e.value.name}))
  {
    var e := CheckedEntry(c, cursor, seen);
    if e.Ok? {
      var rest := ParseEntries(c, e.value.next, end, count - 1, seen + {e.value.name});
      assert rest.Ok? ==> entries + ([e.value] + rest.value) == entries + [e.value] + rest.value;
    }
  }

  /** The entry loop, with its cursor, the names seen and the entries collected so far. */
  method CollectEntries(c: Checks, x: Extent) returns (r: Result<seq<Entry>, ZipError>)
    ensures r == ParseEntries(c, x.offset, x.end, x.count, {})
  {
    var entries: seq<Entry>, seen: set<string>, cursor := [], {}, x.offset;
    ghost var whole := ParseEntries(c, x.offset, x.end, x.count, {});
    assert whole.Ok? ==> [] + whole.value == whole.value;
    for i := 0 to x.count
      invariant whole == Prepend(entries, ParseEntries(c, cursor, x.end, x.count - i, seen))
    {
      PrependNext(c, cursor, x.end, x.count - i, seen, entries);
      var e := CheckedEntry(c, cursor, seen);
      if e.Err? {
        return Err(e.error);
      }
      entries := entries + [e.value];
      seen := seen + {e.value.name};
      cursor := e.value.next;
    }
    if cursor != x.end {
      return Err(TrailingData);
    }
    assert entries + [] == entries;
    return Ok(entries);
  }

  method ParseCentralDirectory(bytes: seq<Byte>, rules: Rules) returns (r: Result<seq<Entry>, ZipError>)
    ensures r == ParseDirectory(bytes, rules)
  {
    var found := FindEndOfCentralDirectory(bytes);
    if found == None {
      return Err(MissingEnd);
    }
    var extent := ReadExtent(bytes, found.value);
    if extent.Err? {
      return Err(extent.error);
    }
    r := CollectEntries(ChecksOf(bytes, extent.value.end, rules), extent.value);
  }

  // ---- What acceptance means ----

  /** The headers of `es` cover [lo, end) one after the other, with nothing before, between or after them. */
  ghost predicate Tiles(es: seq<Entry>, lo: nat, end: nat) {
    && (if es == [] then lo == end else es[0].start == lo && es[|es| - 1].next == end)
    && forall i :: 0 < i < |es| ==> es[i].start == es[i - 1].next
  }

  ghost predicate DistinctNames(es: seq<Entry>, seen: set<string>) {
    && (forall i :: 0 <= i < |es| ==> es[i].name !in seen)
    && forall i, j :: 0 <= i < j < |es| ==> es[i].name != es[j].name
  }

  ghost predicate EachAccepted(c: Checks, es: seq<Entry>) {
    forall i :: 0 <= i < |es| ==> c.read(es[i].start) == Ok(es[i]) && c.refuse(es[i]) == None
  }

  ghost predicate WellFormed(c: Checks, es: seq<Entry>, lo: nat, end: nat, seen: set<string>) {
    Tiles(es, lo, end) && DistinctNames(es, seen) && EachAccepted(c, es)
  }

  /** Every header that can be read is reported at the position it was read from. */
  ghost predicate Positioned(c: Checks) {
    forall cursor: nat :: c.read(cursor).Ok? ==> c.read(cursor).value.start == cursor
  }

  lemma TilesCons(e: Entry, rest: seq<Entry>, lo: nat, end: nat)
    ensures Tiles([e] + rest, lo, end) <==> e.start == lo && Tiles(rest, e.next, end)
  {
    var es := [e] + rest;
    assert forall i :: 0 < i < |rest| ==> es[i + 1] == rest[i] && es[i] == rest[i - 1];
    if Tiles(es, lo, end) {
      forall i | 0 < i < |rest|
        ensures rest[i].start == rest[i - 1].next
      {
        assert es[i + 1].start == es[i].next;
      }
      if rest != [] {
        assert es[1].start == es[0].next;
      }
    }
    if e.start == lo && Tiles(rest, e.next, end) {
      forall i | 0 < i < |es|
        ensures es[i].start == es[i - 1].next
      {
        if i > 1 {
          assert rest[i - 1].start == rest[i - 2].next;
        }
      }
    }
  }

  lemma DistinctCons(e: Entry, rest: seq<Entry>, seen: set<string>)
    ensures DistinctNames([e] + rest, seen) <==> e.name !in seen && DistinctNames(rest, seen + {e.name})
  {
    var es := [e] + rest;
    assert forall i :: 0 <= i < |rest| ==> es[i + 1] == rest[i];
    if DistinctNames(es, seen) {
      assert es[0].name !in seen;
      forall i, j | 0 <= i < j < |rest|
        ensures rest[i].name != rest[j].name
      {
        assert es[i + 1].name != es[j + 1].name;
      }
      forall i | 0 <= i < |rest|
        ensures rest[i].name !in seen + {e.name}
      {
        assert es[i + 1].name !in seen && es[0].name != es[i + 1].name;
      }
    }
    if e.name !in seen && DistinctNames(rest, seen + {e.name}) {
      forall i, j | 0 <= i < j < |es|
        ensures es[i].name != es[j].name
      {
        assert rest[j - 1].name !in seen + {e.name};
        assert i > 0 ==> rest[i - 1].name != rest[j - 1].name;
      }
    }
  }

  lemma AcceptedCons(c: Checks, e: Entry, rest: seq<Entry>)
    ensures EachAccepted(c, [e] + rest) <==> c.read(e.start) == Ok(e) && c.refuse(e) == None && EachAccepted(c, rest)
  {
    var es := [e] + rest;
    assert es[0] == e && forall i :: 0 <= i < |rest| ==> es[i + 1] == rest[i];
    if EachAccepted(c, es) {
      forall i | 0 <= i < |rest|
        ensures c.read(rest[i].start) == Ok(rest[i]) && c.refuse(rest[i]) == None
      {
        assert es[i + 1] == rest[i];
      }
    }
  }

  /** The entry loop returns `es` exactly when `es` tiles the range with accepted, pairwise distinct names. */
  lemma {:induction false} ParsedIffWellFormed(c: Checks, es: seq<Entry>, lo: nat, end: nat, seen: set<string>)
    requires Positioned(c)
    ensures ParseEntries(c, lo, end, |es|, seen) == Ok(es) <==> WellFormed(c, es, lo, end, seen)
  {
    if es != [] {
      var e, rest := es[0], es[1..];
      assert es == [e] + rest;
      TilesCons(e, rest, lo, end);
      DistinctCons(e, rest, seen);
      AcceptedCons(c, e, rest);
      ParsedIffWellFormed(c, rest, e.next, end, seen + {e.name});
      ParseCons(c, e, rest, lo, end, seen);
    }
  }

  lemma ParseCons(c: Checks, e: Entry, rest: seq<Entry>, lo: nat, end: nat, seen: set<string>)
    ensures ParseEntries(c, lo, end, |rest| + 1, seen) == Ok([e] + rest) <==>
              CheckedEntry(c, lo, seen) == Ok(e) && ParseEntries(c, e.next, end, |rest|, seen + {e.name}) == Ok(rest)
  {
    var first := CheckedEntry(c, lo, seen);
    if first.Ok? {
      var tail := ParseEntries(c, first.value.next, end, |rest|, seen + {first.value.name});
      if tail.Ok? && [first.value] + tail.value == [e] + rest {
        assert ([first.value] + tail.value)[0] == first.value && ([e] + rest)[0] == e;
        assert ([first.value] + tail.value)[1..] == tail.value && ([e] + rest)[1..] == rest;
      }
    }
  }

  lemma {:induction false} ParsedCount(c: Checks, cursor: nat, end: nat, count: nat, seen: set<string>)
    requires ParseEntries(c, cursor, end, count, seen).Ok?
    ensures |ParseEntries(c, cursor, end, count, seen).value| == count
    decreases count
  {
    if count > 0 {
      var e := CheckedEntry(c, cursor, seen).value;
      ParsedCount(c, e.next, end, count - 1, seen + {e.name});
    }
  }

  lemma ChecksPositioned(bytes: seq<Byte>, end: nat, rules: Rules)
    requires end <= |bytes|
    ensures Positioned(ChecksOf(bytes, end, rules))
  {}

  /** A directory is accepted as `es` exactly when the last end record announces as many entries, all on one disk and
      within the limits, and `es` tiles the bytes from the announced offset up to that record. */
  lemma AcceptedIffTiled(bytes: seq<Byte>, es: seq<Entry>, rules: Rules)
    ensures ParseDirectory(bytes, rules) == Ok(es) <==>
              && FindEnd(bytes).Some?
              && ReadExtent(bytes, FindEnd(bytes).value).Ok?
              && var x := ReadExtent(bytes, FindEnd(bytes).value).value;
                 |es| == x.count && WellFormed(ChecksOf(bytes, x.end, rules), es, x.offset, x.end, {})
  {
    if FindEnd(bytes).Some? && ReadExtent(bytes, FindEnd(bytes).value).Ok? {
      var x := ReadExtent(bytes, FindEnd(bytes).value).value;
      var c := ChecksOf(bytes, x.end, rules);
      ChecksPositioned(bytes, x.end, rules);
      ParsedIffWellFormed(c, es, x.offset, x.end, {});
      if ParseEntries(c, x.offset, x.end, x.count, {}).Ok? {
        ParsedCount(c, x.offset, x.end, x.count, {});
      }
    }
  }

  /** The entries of an accepted archive are extracted to pairwise distinct places strictly below the target. */
  lemma AcceptedDestinations(bytes: seq<Byte>, es: seq<Entry>, alnum: char -> bool, i: nat, j: nat)
    requires ParseDirectory(bytes, PackageRules(alnum)) == Ok(es) && i < j < |es|
    ensures var p, q := RelativePath(es[i].name, es[i].isDir, alnum), RelativePath(es[j].name, es[j].isDir, alnum);
            && p.Ok? && q.Ok? && p.value != q.value
            && StrictlyBelow(p.value) && StrictlyBelow(q.value)
  {
    var rules := PackageRules(alnum);
    AcceptedIffTiled(bytes, es, rules);
    var x := ReadExtent(bytes, FindEnd(bytes).value).value;
    AcceptedNamesTrimmed(bytes, es[i], x.end, rules);
    AcceptedNamesTrimmed(bytes, es[j], x.end, rules);
    assert LayoutRefusal(es[i], rules) == None && LayoutRefusal(es[j], rules) == None;
    RelativePathKeeps(es[i].name, es[i].isDir, alnum);
    RelativePathKeeps(es[j].name, es[j].isDir, alnum);
    DistinctDestinations(es[i].name, es[j].name, es[i].isDir, es[j].isDir, alnum);
  }

  lemma AcceptedNamesDiffer(bytes: seq<Byte>, es: seq<Entry>, rules: Rules, i: nat, j: nat)
    requires ParseDirectory(bytes, rules) == Ok(es) && i < j < |es|
    ensures es[i].name != es[j].name
  {
    AcceptedIffTiled(bytes, es, rules);
  }

  lemma AcceptedPath(bytes: seq<Byte>, es: seq<Entry>, alnum: char -> bool, i: nat)
    requires ParseDirectory(bytes, PackageRules(alnum)) == Ok(es) && i < |es|
    ensures RelativePath(es[i].name, es[i].isDir, alnum).Ok?
  {
    var rules := PackageRules(alnum);
    AcceptedIffTiled(bytes, es, rules);
    assert LayoutRefusal(es[i], rules) == None;
  }

  lemma {:induction false} TrimTwice(s: string)
    ensures TrimEndSlashes(TrimEndSlashes(s)) == TrimEndSlashes(s)
  {
    if EndsWithSlash(s) {
      TrimTwice(s[..|s| - 1]);
    }
  }

  lemma AcceptedNamesTrimmed(bytes: seq<Byte>, e: Entry, end: nat, rules: Rules)
    requires end <= |bytes| && EntryAt(bytes, e.start, end, rules) == Ok(e)
    ensures (if e.isDir then TrimEndSlashes(e.name) else e.name) == e.name
  {
    var nameLen := HeaderAt(bytes, e.start, end).value.nameLen;
    var name := rules.decode(bytes[e.start + 46..e.start + 46 + nameLen]).value;
    TrimTwice(name);
  }

  // ---- The writer ----

  /** One stored entry: its name as bytes and its contents. */
  datatype Item = Item(name: seq<Byte>, data: seq<Byte>)

  /** Fields one after the other. */
  function Flatten(fields: seq<seq<Byte>>): seq<Byte> {
    if fields == [] then [] else fields[0] + Flatten(fields[1..])
  }

  /** Where field `i` starts. */
  function Offset(fields: seq<seq<Byte>>, i: nat): nat
    requires i <= |fields|
  {
    if i == 0 then 0 else Offset(fields, i - 1) + |fields[i - 1]|
  }

  /** Signature, version needed, flags, method, time, crc, compressed and declared size, name and extra length, name, data. */
  function LocalFields(item: Item): (f: seq<seq<Byte>>)
    ensures |f| == 12
  {
    [Le32(LOCAL_SIGNATURE), Le16(20), Le16(0), Le16(0), Le32(0), Le32(0), Le32(|item.data|), Le32(|item.data|),
     Le16(|item.name|), Le16(0), item.name, item.data]
  }

  function LocalHeader(item: Item): seq<Byte> { Flatten(LocalFields(item)) }

  /** Signature, version made by and needed, flags, method, time, crc, compressed and declared size, name length, the
      twelve zero bytes of extra length, comment length, disk and attributes, local header offset, name. */
  function CentralFields(item: Item, offset: nat): (f: seq<seq<Byte>>)
    ensures |f| == 15
  {
    [Le32(ENTRY_SIGNATURE), Le16(20), Le16(20), Le16(0), Le16(0), Le32(0), Le32(0), Le32(|item.data|), Le32(|item.data|),
     Le16(|item.name|), Le16(0), Le16(0), LeBytes(0, 8), Le32(offset), item.name]
  }

  function CentralHeader(item: Item, offset: nat): seq<Byte> { Flatten(CentralFields(item, offset)) }

  /** How a writer lays out the header of one entry before its data and in the directory. */
  datatype Layout = Layout(local: Item -> seq<Byte>, central: (Item, nat) -> seq<Byte>)

  function RawLayout(): Layout { Layout(LocalHeader, CentralHeader) }

  function Locals(l: Layout, items: seq<Item>): seq<Byte> {
    if items == [] then [] else l.local(items[0]) + Locals(l, items[1..])
  }

  function Centrals(l: Layout, items: seq<Item>, offset: nat): seq<Byte> {
    if items == [] then []
    else l.central(items[0], offset) + Centrals(l, items[1..], offset + |l.local(items[0])|)
  }

  function EndRecord(count: nat, size: nat, offset: nat): (b: seq<Byte>)
    ensures |b| == 22
  {
    Le32(END_SIGNATURE) + (Le16(0) + (Le16(0) + (Le16(count) + (Le16(count) + (Le32(size) + (Le32(offset) + Le16(0)))))))
  }

  /** The directory of `items` and its end record, after any bytes. */
  function WithDirectory(l: Layout, before: seq<Byte>, items: seq<Item>): seq<Byte> {
    before + Centrals(l, items, 0) + EndRecord(|items|, |Centrals(l, items, 0)|, |before|)
  }

  lemma DirectoryLength(l: Layout, before: seq<Byte>, items: seq<Item>)
    ensures |WithDirectory(l, before, items)| == |before| + |Centrals(l, items, 0)| + 22
  {}

  /** The parts written for the first `i` items, completed by what is still to come, are the whole parts. */
  ghost predicate WrittenUpTo(l: Layout, items: seq<Item>, i: nat, locals: seq<Byte>, centrals: seq<Byte>)
    requires i <= |items|
  {
    && Locals(l, items) == locals + Locals(l, items[i..])
    && Centrals(l, items, 0) == centrals + Centrals(l, items[i..], |locals|)
  }

  lemma WrittenNext(l: Layout, items: seq<Item>, i: nat, locals: seq<Byte>, centrals: seq<Byte>)
    requires i < |items| && WrittenUpTo(l, items, i, locals, centrals)
    ensures WrittenUpTo(l, items, i + 1, locals + l.local(items[i]), centrals + l.central(items[i], |locals|))
  {
    assert items[i..][1..] == items[i + 1..];
  }

  /** The loop over the entries fills the local and the central part side by side. */
  method WriteParts(l: Layout, items: seq<Item>) returns (locals: seq<Byte>, centrals: seq<Byte>)
    ensures locals == Locals(l, items) && centrals == Centrals(l, items, 0)
  {
    locals, centrals := [], [];
    var offset := 0;
    for i := 0 to |items|
      invariant offset == |locals| && WrittenUpTo(l, items, i, locals, centrals)
    {
      var local, central := l.local(items[i]), l.central(items[i], offset);
      WrittenNext(l, items, i, locals, centrals);
      offset := offset + |local|;
      locals := locals + local;
      centrals := centrals + central;
    }
  }

  method RawZip(items: seq<Item>) returns (out: seq<Byte>)
    ensures out == WithDirectory(RawLayout(), Locals(RawLayout(), items), items)
  {
    var locals, centrals := WriteParts(RawLayout(), items);
    out := locals + centrals + EndRecord(|items|, |centrals|, |locals|);
  }

  // ---- Parsing what was written ----

  /** What the parser demands of names, in the writer's terms. */
  ghost predicate GoodName(name: seq<Byte>, rules: Rules) {
    && |name| < U16_LIMIT
    && rules.decode(name).Some?
    && var s := rules.decode(name).value;
       !HasIllegalParts(Normalized(s)) && rules.path(Normalized(s), EndsWithSlash(s)).Ok?
  }

  function NameOf(item: Item, rules: Rules): string {
    match rules.decode(item.name) case Some(s) => Normalized(s) case None => ""
  }

  /** The bytes `h` are a directory header for `item`: signature, size, name length and name are its own, and the extra
      field and comment end where the header does. The other fields (versions, flags, method, time, checksum, compressed
      size, attributes, offset), the extra field and the comment hold anything. */
  ghost predicate HeaderFor(h: seq<Byte>, item: Item) {
    && |h| >= 46 + |item.name|
    && ReadU32(h, 0) == Ok(ENTRY_SIGNATURE) && ReadU32(h, 24) == Ok(|item.data|) && ReadU16(h, 28) == Ok(|item.name|)
    && |h| == 46 + |item.name| + ReadU16(h, 30).value + ReadU16(h, 32).value
    && h[46..46 + |item.name|] == item.name
  }

  predicate FieldsFit(item: Item) { |item.name| < U16_LIMIT && |item.data| < U32_LIMIT }

  /** The layout writes a directory header for every entry that fits its fields. */
  ghost predicate WritesHeaders(l: Layout) {
    forall item, offset :: FieldsFit(item) ==> HeaderFor(l.central(item, offset), item)
  }

  ghost predicate WellWritten(l: Layout, before: nat, items: seq<Item>, rules: Rules) {
    && |items| <= MAX_ENTRIES
    && before < U32_LIMIT - 1 && |Centrals(l, items, 0)| < U32_LIMIT - 1
    && (forall i :: 0 <= i < |items| ==> GoodName(items[i].name, rules) && FieldsFit(items[i]))
    && forall i, j :: 0 <= i < j < |items| ==> NameOf(items[i], rules) != NameOf(items[j], rules)
  }

  lemma ReadWithin(bytes: seq<Byte>, a: nat, h: seq<Byte>, k: nat)
    requires At(bytes, a, h)
    ensures k + 2 <= |h| ==> ReadU16(bytes, a + k) == ReadU16(h, k)
    ensures k + 4 <= |h| ==> ReadU32(bytes, a + k) == ReadU32(h, k)
  {
    assert forall i :: 0 <= i < |h| ==> bytes[a + i] == bytes[a..a + |h|][i] == h[i];
  }

  lemma SliceWithin(bytes: seq<Byte>, a: nat, h: seq<Byte>, k: nat, n: nat)
    requires At(bytes, a, h) && k + n <= |h|
    ensures bytes[a + k..a + k + n] == h[k..k + n]
  {
    var s, t := bytes[a + k..a + k + n], h[k..k + n];
    forall i | 0 <= i < n
      ensures s[i] == t[i]
    {
      assert bytes[a + (k + i)] == bytes[a..a + |h|][k + i];
    }
    assert s == t;
  }

  /** Reading back one written header. */
  lemma WrittenHeader(bytes: seq<Byte>, a: nat, end: nat, h: seq<Byte>, item: Item)
    requires a + |h| <= end <= |bytes| && At(bytes, a, h) && HeaderFor(h, item)
    ensures HeaderAt(bytes, a, end) == Ok(Header(|item.data|, |item.name|, a + |h|))
    ensures At(bytes, a + 46, item.name)
  {
    ReadWithin(bytes, a, h, 0);
    ReadWithin(bytes, a, h, 24);
    ReadWithin(bytes, a, h, 28);
    ReadWithin(bytes, a, h, 30);
    ReadWithin(bytes, a, h, 32);
    SliceWithin(bytes, a, h, 46, |item.name|);
  }

  // ---- The raw layout ----

  lemma {:induction false} AtField(bytes: seq<Byte>, a: nat, fields: seq<seq<Byte>>, i: nat)
    requires At(bytes, a, Flatten(fields)) && i < |fields|
    ensures At(bytes, a + Offset(fields, i), fields[i])
    decreases |fields|
  {
    AtSplit(bytes, a, fields[0], Flatten(fields[1..]));
    if i > 0 {
      AtField(bytes, a + |fields[0]|, fields[1..], i - 1);
      OffsetOfRest(fields, i);
    }
  }

  lemma {:induction false} OffsetOfRest(fields: seq<seq<Byte>>, i: nat)
    requires 0 < i <= |fields|
    ensures Offset(fields, i) == |fields[0]| + Offset(fields[1..], i - 1)
  {
    if i > 1 {
      OffsetOfRest(fields, i - 1);
    }
  }

  lemma {:induction false} FlattenLength(fields: seq<seq<Byte>>)
    ensures |Flatten(fields)| == Offset(fields, |fields|)
  {
    if fields != [] {
      FlattenLength(fields[1..]);
      OffsetOfRest(fields, |fields|);
    }
  }

  /** Where the fields of a directory header start, given how long they are. */
  lemma HeaderOffsets(f: seq<seq<Byte>>)
    requires |f| == 15 && |f[0]| == 4 && |f[1]| == 2 && |f[2]| == 2 && |f[3]| == 2 && |f[4]| == 2 && |f[5]| == 4 && |f[6]| == 4
    requires |f[7]| == 4 && |f[8]| == 4 && |f[9]| == 2 && |f[10]| == 2 && |f[11]| == 2 && |f[12]| == 8 && |f[13]| == 4
    ensures Offset(f, 0) == 0 && Offset(f, 8) == 24 && Offset(f, 9) == 28 && Offset(f, 10) == 30 && Offset(f, 11) == 32
    ensures Offset(f, 14) == 46 && Offset(f, 15) == 46 + |f[14]|
  {
    assert Offset(f, 1) == 4;
    assert Offset(f, 2) == 6;
    assert Offset(f, 3) == 8;
    assert Offset(f, 4) == 10;
    assert Offset(f, 5) == 12;
    assert Offset(f, 6) == 16;
    assert Offset(f, 7) == 20;
    assert Offset(f, 8) == 24;
    assert Offset(f, 9) == 28;
    assert Offset(f, 10) == 30;
    assert Offset(f, 11) == 32;
    assert Offset(f, 12) == 34;
    assert Offset(f, 13) == 42;
    assert Offset(f, 14) == 46;
  }

  lemma CentralOffsets(item: Item, offset: nat)
    ensures var f := CentralFields(item, offset);
            && Offset(f, 0) == 0 && Offset(f, 8) == 24 && Offset(f, 9) == 28 && Offset(f, 10) == 30 && Offset(f, 11) == 32
            && Offset(f, 14) == 46
    ensures |CentralHeader(item, offset)| == 46 + |item.name|
  {
    var f := CentralFields(item, offset);
    HeaderOffsets(f);
    FlattenLength(f);
  }

  lemma LocalLength(item: Item)
    ensures |LocalHeader(item)| == 30 + |item.name| + |item.data|
  {
    var f := LocalFields(item);
    assert Offset(f, 1) == 4;
    assert Offset(f, 2) == 6;
    assert Offset(f, 4) == 10;
    assert Offset(f, 5) == 14;
    assert Offset(f, 6) == 18;
    assert Offset(f, 7) == 22;
    assert Offset(f, 8) == 26;
    assert Offset(f, 10) == 30;
    assert Offset(f, 11) == 30 + |item.name|;
    FlattenLength(f);
  }

  lemma PlacedFields(bytes: seq<Byte>, a: nat, f: seq<seq<Byte>>)
    requires |f| == 15 && At(bytes, a, Flatten(f))
    requires Offset(f, 8) == 24 && Offset(f, 9) == 28 && Offset(f, 10) == 30 && Offset(f, 11) == 32 && Offset(f, 14) == 46
    ensures At(bytes, a, f[0]) && At(bytes, a + 24, f[8]) && At(bytes, a + 28, f[9])
    ensures At(bytes, a + 30, f[10]) && At(bytes, a + 32, f[11]) && At(bytes, a + 46, f[14])
  {
    AtField(bytes, a, f, 0);
    AtField(bytes, a, f, 8);
    AtField(bytes, a, f, 9);
    AtField(bytes, a, f, 10);
    AtField(bytes, a, f, 11);
    AtField(bytes, a, f, 14);
  }

  /** The six fields the parser looks at stand where they belong, with neither extra field nor comment. */
  ghost predicate HasFields(h: seq<Byte>, item: Item) {
    && |h| == 46 + |item.name|
    && At(h, 0, Le32(ENTRY_SIGNATURE)) && At(h, 24, Le32(|item.data|)) && At(h, 28, Le16(|item.name|))
    && At(h, 30, Le16(0)) && At(h, 32, Le16(0)) && At(h, 46, item.name)
  }

  lemma HeaderFromFields(h: seq<Byte>, item: Item)
    requires FieldsFit(item) && HasFields(h, item)
    ensures HeaderFor(h, item)
  {
    ReadLe32(h, 0, ENTRY_SIGNATURE);
    ReadLe32(h, 24, |item.data|);
    ReadLe16(h, 28, |item.name|);
    ReadLe16(h, 30, 0);
    ReadLe16(h, 32, 0);
  }

  lemma FieldsStand(h: seq<Byte>, f: seq<seq<Byte>>, item: Item)
    requires |f| == 15 && h == Flatten(f) && |h| == 46 + |item.name|
    requires Offset(f, 8) == 24 && Offset(f, 9) == 28 && Offset(f, 10) == 30 && Offset(f, 11) == 32 && Offset(f, 14) == 46
    requires f[0] == Le32(ENTRY_SIGNATURE) && f[8] == Le32(|item.data|) && f[9] == Le16(|item.name|)
    requires f[10] == Le16(0) && f[11] == Le16(0) && f[14] == item.name
    ensures HasFields(h, item)
  {
    assert At(h, 0, Flatten(f));
    PlacedFields(h, 0, f);
  }

  lemma RawHasFields(item: Item, offset: nat)
    ensures HasFields(CentralHeader(item, offset), item)
  {
    CentralOffsets(item, offset);
    FieldsStand(CentralHeader(item, offset), CentralFields(item, offset), item);
  }

  lemma FieldsMakeHeaders(l: Layout)
    requires forall item, offset :: HasFields(l.central(item, offset), item)
    ensures WritesHeaders(l)
  {
    forall item, offset | FieldsFit(item)
      ensures HeaderFor(l.central(item, offset), item)
    {
      HeaderFromFields(l.central(item, offset), item);
    }
  }

  /** The raw writer writes directory headers. */
  lemma RawWritesHeaders()
    ensures WritesHeaders(RawLayout())
  {
    forall item, offset
      ensures HasFields(RawLayout().central(item, offset), item)
    {
      RawHasFields(item, offset);
    }
    FieldsMakeHeaders(RawLayout());
  }

  // ---- The round trip ----

  lemma WrittenEnd(bytes: seq<Byte>, p: nat, count: nat, size: nat, offset: nat)
    requires p + 22 == |bytes| && At(bytes, p, EndRecord(count, size, offset))
    requires count <= MAX_ENTRIES && size < U32_LIMIT - 1 && offset < U32_LIMIT - 1 && offset + size == p
    ensures IsEnd(bytes, p) && ReadExtent(bytes, p) == Ok(Extent(offset, p, count))
  {
    var f7 := Le16(0);
    var f6 := Le32(offset) + f7;
    var f5 := Le32(size) + f6;
    var f4 := Le16(count) + f5;
    var f3 := Le16(count) + f4;
    var f2 := Le16(0) + f3;
    var f1 := Le16(0) + f2;
    AtSplit(bytes, p, Le32(END_SIGNATURE), f1);
    AtSplit(bytes, p + 4, Le16(0), f2);
    AtSplit(bytes, p + 6, Le16(0), f3);
    AtSplit(bytes, p + 8, Le16(count), f4);
    AtSplit(bytes, p + 10, Le16(count), f5);
    AtSplit(bytes, p + 12, Le32(size), f6);
    AtSplit(bytes, p + 16, Le32(offset), f7);
    ReadLe32(bytes, p, END_SIGNATURE);
    ReadLe16(bytes, p + 4, 0);
    ReadLe16(bytes, p + 6, 0);
    ReadLe16(bytes, p + 8, count);
    ReadLe16(bytes, p + 10, count);
    ReadLe32(bytes, p + 12, size);
    ReadLe32(bytes, p + 16, offset);
    ReadLe16(bytes, p + 20, 0);
  }

  /** The entries the parser must find for `items` whose headers are written from `start` on. */
  function Expected(l: Layout, items: seq<Item>, offset: nat, start: nat, rules: Rules): (es: seq<Entry>)
    ensures |es| == |items|
  {
    if items == [] then []
    else
      var next := start + |l.central(items[0], offset)|;
      [ExpectedFirst(items[0], start, next, rules)] + Expected(l, items[1..], offset + |l.local(items[0])|, next, rules)
  }

  function ExpectedFirst(item: Item, start: nat, next: nat, rules: Rules): Entry {
    var isDir := match rules.decode(item.name) case Some(s) => EndsWithSlash(s) case None => false;
    Entry(start, next, NameOf(item, rules), isDir, |item.data|)
  }

  /** The expected entries carry the written names, kinds and sizes, in the written order. */
  lemma {:induction false} ExpectedContents(l: Layout, items: seq<Item>, offset: nat, start: nat, i: nat, rules: Rules)
    requires i < |items|
    ensures var e := Expected(l, items, offset, start, rules)[i];
            && e.name == NameOf(items[i], rules) && e.size == |items[i].data|
            && (rules.decode(items[i].name).Some? ==> e.isDir == EndsWithSlash(rules.decode(items[i].name).value))
  {
    if i > 0 {
      ExpectedContents(l, items[1..], offset + |l.local(items[0])|, start + |l.central(items[0], offset)|, i - 1, rules);
    }
  }

  /** The names are good and new, one after the other. */
  ghost predicate NewAndGood(items: seq<Item>, seen: set<string>, rules: Rules) {
    items != [] ==>
      && GoodName(items[0].name, rules) && NameOf(items[0], rules) !in seen
      && NewAndGood(items[1..], seen + {NameOf(items[0], rules)}, rules)
  }

  lemma {:induction false} DistinctAreNew(items: seq<Item>, seen: set<string>, rules: Rules)
    requires forall i :: 0 <= i < |items| ==> GoodName(items[i].name, rules) && NameOf(items[i], rules) !in seen
    requires forall i, j :: 0 <= i < j < |items| ==> NameOf(items[i], rules) != NameOf(items[j], rules)
    ensures NewAndGood(items, seen, rules)
  {
    if items != [] {
      DistinctAreNew(items[1..], seen + {NameOf(items[0], rules)}, rules);
    }
  }

  lemma {:induction false} NewAreDistinct(items: seq<Item>, seen: set<string>, rules: Rules)
    requires NewAndGood(items, seen, rules)
    ensures forall i :: 0 <= i < |items| ==> GoodName(items[i].name, rules) && NameOf(items[i], rules) !in seen
    ensures forall i, j :: 0 <= i < j < |items| ==> NameOf(items[i], rules) != NameOf(items[j], rules)
  {
    if items != [] {
      var rest := items[1..];
      NewAreDistinct(rest, seen + {NameOf(items[0], rules)}, rules);
      assert forall i :: 0 < i < |items| ==> items[i] == rest[i - 1];
    }
  }

  /** Wherever the header of an item that fits stands below `end`, `c` accepts it exactly if its name is good, and then
      reads the expected entry. */
  ghost predicate ReadsBack(c: Checks, l: Layout, bytes: seq<Byte>, end: nat, rules: Rules) {
    forall a: nat, item: Item, offset: nat {:trigger ReadsBackOne(c, l, bytes, a, end, item, offset, rules)} ::
      ReadsBackOne(c, l, bytes, a, end, item, offset, rules)
  }

  ghost predicate ReadsBackOne(c: Checks, l: Layout, bytes: seq<Byte>, a: nat, end: nat, item: Item, offset: nat, rules: Rules) {
    var h := l.central(item, offset);
    var e := ExpectedFirst(item, a, a + |h|, rules);
    FieldsFit(item) && a + |h| <= end && At(bytes, a, h) ==>
      && (GoodName(item.name, rules) ==> c.read(a) == Ok(e) && c.refuse(e) == None)
      && (c.read(a).Ok? && c.refuse(c.read(a).value) == None ==> GoodName(item.name, rules))
  }

  lemma CheckedIff(c: Checks, a: nat, seen: set<string>, e: Entry, good: bool)
    requires good ==> c.read(a) == Ok(e) && c.refuse(e) == None
    requires c.read(a).Ok? && c.refuse(c.read(a).value) == None ==> good
    ensures CheckedEntry(c, a, seen).Ok? <==> good && e.name !in seen
    ensures CheckedEntry(c, a, seen).Ok? ==> CheckedEntry(c, a, seen) == Ok(e)
  {}

  lemma ParseStep(c: Checks, a: nat, end: nat, count: nat, seen: set<string>, e: Entry, good: bool, tail: seq<Entry>)
    requires good ==> c.read(a) == Ok(e) && c.refuse(e) == None
    requires c.read(a).Ok? && c.refuse(c.read(a).value) == None ==> good
    ensures var rest := ParseEntries(c, e.next, end, count, seen + {e.name});
            && (ParseEntries(c, a, end, count + 1, seen).Ok? <==> good && e.name !in seen && rest.Ok?)
            && (good && e.name !in seen && rest == Ok(tail) ==> ParseEntries(c, a, end, count + 1, seen) == Ok([e] + tail))
  {
    CheckedIff(c, a, seen, e, good);
  }

  lemma FirstReadsBack(c: Checks, l: Layout, bytes: seq<Byte>, a: nat, end: nat, item: Item, offset: nat, rules: Rules)
    requires ReadsBack(c, l, bytes, end, rules) && FieldsFit(item)
    requires a + |l.central(item, offset)| <= end && At(bytes, a, l.central(item, offset))
    ensures var e := ExpectedFirst(item, a, a + |l.central(item, offset)|, rules);
            GoodName(item.name, rules) ==> c.read(a) == Ok(e) && c.refuse(e) == None
    ensures c.read(a).Ok? && c.refuse(c.read(a).value) == None ==> GoodName(item.name, rules)
  {
    assert ReadsBackOne(c, l, bytes, a, end, item, offset, rules);
  }

  /** The first header of a written directory reads back, and the rest of the directory follows it. */
  lemma FirstWritten(c: Checks, l: Layout, bytes: seq<Byte>, a: nat, end: nat, items: seq<Item>, offset: nat, rules: Rules)
    requires items != [] && FieldsFit(items[0]) && ReadsBack(c, l, bytes, end, rules)
    requires a + |Centrals(l, items, offset)| == end && At(bytes, a, Centrals(l, items, offset))
    ensures var next := a + |l.central(items[0], offset)|;
            var e, rest := ExpectedFirst(items[0], a, next, rules), Centrals(l, items[1..], offset + |l.local(items[0])|);
            && (GoodName(items[0].name, rules) ==> c.read(a) == Ok(e) && c.refuse(e) == None)
            && next + |rest| == end && At(bytes, next, rest)
    ensures c.read(a).Ok? && c.refuse(c.read(a).value) == None ==> GoodName(items[0].name, rules)
  {
    AtSplit(bytes, a, l.central(items[0], offset), Centrals(l, items[1..], offset + |l.local(items[0])|));
    FirstReadsBack(c, l, bytes, a, end, items[0], offset, rules);
  }

  /** The entry loop succeeds exactly if the names are good and new, and then returns the expected entries. */
  ghost predicate LoopReads(c: Checks, l: Layout, a: nat, end: nat, items: seq<Item>, offset: nat, seen: set<string>, rules: Rules) {
    var r := ParseEntries(c, a, end, |items|, seen);
    && (r.Ok? <==> NewAndGood(items, seen, rules))
    && (r.Ok? ==> r == Ok(Expected(l, items, offset, a, rules)))
  }

  lemma WrittenStep(c: Checks, l: Layout, a: nat, end: nat, items: seq<Item>, offset: nat, seen: set<string>, rules: Rules)
    requires items != []
    requires var e := ExpectedFirst(items[0], a, a + |l.central(items[0], offset)|, rules);
             GoodName(items[0].name, rules) ==> c.read(a) == Ok(e) && c.refuse(e) == None
    requires c.read(a).Ok? && c.refuse(c.read(a).value) == None ==> GoodName(items[0].name, rules)
    requires LoopReads(c, l, a + |l.central(items[0], offset)|, end, items[1..], offset + |l.local(items[0])|,
                       seen + {NameOf(items[0], rules)}, rules)
    ensures LoopReads(c, l, a, end, items, offset, seen, rules)
  {
    var next := a + |l.central(items[0], offset)|;
    var e, good := ExpectedFirst(items[0], a, next, rules), GoodName(items[0].name, rules);
    var tail := Expected(l, items[1..], offset + |l.local(items[0])|, next, rules);
    ParseStep(c, a, end, |items| - 1, seen, e, good, tail);
    assert NewAndGood(items, seen, rules) <==> good && e.name !in seen && NewAndGood(items[1..], seen + {e.name}, rules);
    assert Expected(l, items, offset, a, rules) == [e] + tail;
  }

  /** The entry loop on a written directory. */
  lemma {:induction false} WrittenEntries(c: Checks, l: Layout, bytes: seq<Byte>, a: nat, end: nat, items: seq<Item>, offset: nat,
                                          seen: set<string>, rules: Rules)
    requires ReadsBack(c, l, bytes, end, rules)
    requires a + |Centrals(l, items, offset)| == end && At(bytes, a, Centrals(l, items, offset))
    requires forall i :: 0 <= i < |items| ==> FieldsFit(items[i])
    ensures LoopReads(c, l, a, end, items, offset, seen, rules)
    decreases |items|
  {
    if items != [] {
      var next := a + |l.central(items[0], offset)|;
      FirstWritten(c, l, bytes, a, end, items, offset, rules);
      WrittenEntries(c, l, bytes, next, end, items[1..], offset + |l.local(items[0])|, seen + {NameOf(items[0], rules)}, rules);
      WrittenStep(c, l, a, end, items, offset, seen, rules);
    }
  }

  lemma WrittenName(a: nat, h: Header, item: Item, rules: Rules)
    requires |item.name| < U16_LIMIT && h.size == |item.data|
    ensures GoodName(item.name, rules) ==>
              && NamedEntry(a, h, item.name, rules) == Ok(ExpectedFirst(item, a, h.next, rules))
              && LayoutRefusal(ExpectedFirst(item, a, h.next, rules), rules) == None
    ensures NamedEntry(a, h, item.name, rules).Ok? && LayoutRefusal(NamedEntry(a, h, item.name, rules).value, rules) == None ==>
              GoodName(item.name, rules)
  {}

  lemma ReadIsNamed(bytes: seq<Byte>, a: nat, end: nat, next: nat, item: Item, rules: Rules)
    requires end <= |bytes| && HeaderAt(bytes, a, end) == Ok(Header(|item.data|, |item.name|, next))
    requires At(bytes, a + 46, item.name)
    ensures ChecksOf(bytes, end, rules).read(a) == NamedEntry(a, Header(|item.data|, |item.name|, next), item.name, rules)
  {}

  lemma ChecksReadBack(l: Layout, bytes: seq<Byte>, end: nat, rules: Rules)
    requires end <= |bytes| && WritesHeaders(l)
    ensures ReadsBack(ChecksOf(bytes, end, rules), l, bytes, end, rules)
  {
    var c := ChecksOf(bytes, end, rules);
    forall a: nat, item: Item, offset: nat
      ensures ReadsBackOne(c, l, bytes, a, end, item, offset, rules)
    {
      var h := l.central(item, offset);
      if FieldsFit(item) && a + |h| <= end && At(bytes, a, h) {
        assert HeaderFor(h, item);
        WrittenHeader(bytes, a, end, h, item);
        ReadIsNamed(bytes, a, end, a + |h|, item, rules);
        WrittenName(a, Header(|item.data|, |item.name|, a + |h|), item, rules);
      }
    }
  }

  lemma ParseFrom(bytes: seq<Byte>, p: nat, x: Extent, rules: Rules)
    requires p + 22 == |bytes| && IsEnd(bytes, p) && ReadExtent(bytes, p) == Ok(x)
    ensures ParseDirectory(bytes, rules) == ParseEntries(ChecksOf(bytes, x.end, rules), x.offset, x.end, x.count, {})
  {
    LastEndIs(bytes, |bytes|, p);
  }

  lemma DirectoryPlaced(before: seq<Byte>, centrals: seq<Byte>, last: seq<Byte>)
    ensures At(before + centrals + last, |before|, centrals)
    ensures At(before + centrals + last, |before| + |centrals|, last)
  {}

  /** The limits the format itself sets. */
  ghost predicate SizesFit(l: Layout, before: nat, items: seq<Item>) {
    && |items| <= MAX_ENTRIES
    && before < U32_LIMIT - 1 && |Centrals(l, items, 0)| < U32_LIMIT - 1
    && forall i :: 0 <= i < |items| ==> FieldsFit(items[i])
  }

  lemma EntriesOfWritten(l: Layout, bytes: seq<Byte>, start: nat, p: nat, items: seq<Item>, rules: Rules)
    requires WritesHeaders(l) && p + 22 == |bytes|
    requires start + |Centrals(l, items, 0)| == p && At(bytes, start, Centrals(l, items, 0))
    requires forall i :: 0 <= i < |items| ==> FieldsFit(items[i])
    ensures var r := ParseEntries(ChecksOf(bytes, p, rules), start, p, |items|, {});
            && (r.Ok? <==> NewAndGood(items, {}, rules))
            && (NewAndGood(items, {}, rules) ==> r == Ok(Expected(l, items, 0, start, rules)))
  {
    ChecksReadBack(l, bytes, p, rules);
    WrittenEntries(ChecksOf(bytes, p, rules), l, bytes, start, p, items, 0, {}, rules);
  }

  lemma WrittenDirectory(l: Layout, before: seq<Byte>, items: seq<Item>, rules: Rules)
    requires WritesHeaders(l) && SizesFit(l, |before|, items)
    ensures ParseDirectory(WithDirectory(l, before, items), rules).Ok? <==> NewAndGood(items, {}, rules)
    ensures NewAndGood(items, {}, rules) ==>
              ParseDirectory(WithDirectory(l, before, items), rules) == Ok(Expected(l, items, 0, |before|, rules))
  {
    var bytes, centrals := WithDirectory(l, before, items), Centrals(l, items, 0);
    DirectoryPlaced(before, centrals, EndRecord(|items|, |centrals|, |before|));
    var p := |before| + |centrals|;
    WrittenEnd(bytes, p, |items|, |centrals|, |before|);
    ParseFrom(bytes, p, Extent(|before|, p, |items|), rules);
    EntriesOfWritten(l, bytes, |before|, p, items, rules);
  }

  /** Within the limits of the format, a written directory is accepted exactly when its names are all good and pairwise
      distinct, and then it is read as written; whatever stands in the fields the parser skips. */
  lemma WrittenAcceptedIff(l: Layout, before: seq<Byte>, items: seq<Item>, rules: Rules)
    requires WritesHeaders(l) && SizesFit(l, |before|, items)
    ensures ParseDirectory(WithDirectory(l, before, items), rules).Ok? <==> WellWritten(l, |before|, items, rules)
    ensures WellWritten(l, |before|, items, rules) ==>
              ParseDirectory(WithDirectory(l, before, items), rules) == Ok(Expected(l, items, 0, |before|, rules))
  {
    WrittenDirectory(l, before, items, rules);
    if NewAndGood(items, {}, rules) {
      NewAreDistinct(items, {}, rules);
    }
    if WellWritten(l, |before|, items, rules) {
      DistinctAreNew(items, {}, rules);
    }
  }

  /** Round trip of the raw writer: whatever bytes stand before the directory, parsing returns the written entries in
      order. */
  lemma ParseWritten(before: seq<Byte>, items: seq<Item>, rules: Rules)
    requires WellWritten(RawLayout(), |before|, items, rules)
    ensures ParseDirectory(WithDirectory(RawLayout(), before, items), rules) == Ok(Expected(RawLayout(), items, 0, |before|, rules))
  {
    RawWritesHeaders();
    WrittenAcceptedIff(RawLayout(), before, items, rules);
  }
}
