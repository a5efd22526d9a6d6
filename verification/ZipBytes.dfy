/** Which byte strings are accepted as archives, byte by byte (APPNOTE.TXT, sections 4.3.12 and 4.3.16). */
module ZipBytes {
  import opened Bytes
  import opened ArchivePath
  import opened ZipDirectory
  import Utf8

  /** The little-endian numbers of two and four bytes. */
  function Two(b: seq<Byte>, p: nat): nat
    requires p + 2 <= |b|
  {
    b[p] as int + 0x100 * b[p + 1] as int
  }

  function Four(b: seq<Byte>, p: nat): nat
    requires p + 4 <= |b|
  {
    Two(b, p) + 0x1_0000 * Two(b, p + 2)
  }

  lemma TwoDigits(a: Byte, b: Byte, c: Byte, d: Byte)
    ensures a as int + 0x100 * b as int == c as int + 0x100 * d as int <==> a == c && b == d
  {}

  lemma TwoPairs(a: nat, b: nat, c: nat, d: nat)
    requires a < 0x1_0000 && c < 0x1_0000
    ensures a + 0x1_0000 * b == c + 0x1_0000 * d <==> a == c && b == d
  {}

  lemma FourIs(b: seq<Byte>, p: nat)
    requires p + 4 <= |b|
    ensures ReadU32(b, p) == Ok(Four(b, p))
  {}

  lemma SignatureIs(b: seq<Byte>, p: nat, third: Byte, fourth: Byte)
    requires p + 4 <= |b|
    ensures Four(b, p) == 0x4b50 + 0x1_0000 * (third as int + 0x100 * fourth as int) <==> b[p..p + 4] == [0x50, 0x4B, third, fourth]
  {
    TwoDigits(b[p], b[p + 1], 0x50, 0x4B);
    TwoDigits(b[p + 2], b[p + 3], third, fourth);
    TwoPairs(Two(b, p), Two(b, p + 2), 0x4b50, third as int + 0x100 * fourth as int);
    assert b[p..p + 4] == [b[p], b[p + 1], b[p + 2], b[p + 3]];
  }

  // ---- The end record ----

  /** An end record whose comment ends the file. */
  predicate EndAt(b: seq<Byte>, p: nat) {
    p + 22 <= |b| && b[p..p + 4] == [0x50, 0x4B, 5, 6] && Two(b, p + 20) == |b| - p - 22
  }

  /** It announces `count` entries, all on one disk and at most 500, in a directory from `lo` up to the record itself. */
  predicate Announces(b: seq<Byte>, p: nat, lo: nat, count: nat)
    requires p + 22 <= |b|
  {
    && Two(b, p + 4) == Two(b, p + 6) == 0 && Two(b, p + 8) == Two(b, p + 10) == count <= 500
    && Four(b, p + 16) == lo < 0xFFFF_FFFF && lo <= p && Four(b, p + 12) == p - lo < 0xFFFF_FFFF
  }

  lemma EndIff(b: seq<Byte>, p: nat)
    ensures IsEnd(b, p) <==> EndAt(b, p)
  {
    if p + 22 <= |b| {
      FourIs(b, p);
      SignatureIs(b, p, 5, 6);
    }
  }

  lemma ExtentIff(b: seq<Byte>, p: nat, x: Extent)
    requires p + 22 <= |b|
    ensures ReadExtent(b, p) == Ok(x) <==> x.end == p && Announces(b, p, x.offset, x.count)
  {
    FourIs(b, p + 12);
    FourIs(b, p + 16);
  }

  // ---- The headers ----

  /** No parent directory, absolute path, drive or backslash. */
  predicate HarmlessName(text: string) {
    '\\' !in text && ':' !in text && (text != "" ==> text[0] != '/') && forall i :: 0 <= i < |text| - 1 ==> !(text[i] == '.' && text[i + 1] == '.')
  }

  /** The bytes from the start of `e` are a header of it, ending by `end`, with a name as it should be. */
  predicate HeaderWith(b: seq<Byte>, e: Entry, end: nat, named: seq<Byte> -> bool)
    requires end <= |b|
  {
    && e.start + 46 <= e.next <= end && b[e.start..e.start + 4] == [0x50, 0x4B, 1, 2] && e.size == Four(b, e.start + 24)
    && var nameLen := Two(b, e.start + 28);
       && e.next == e.start + 46 + nameLen + Two(b, e.start + 30) + Two(b, e.start + 32)
       && named(b[e.start + 46..e.start + 46 + nameLen])
  }

  /** Its name is UTF-8 and leads into a package. */
  ghost predicate HeaderOf(b: seq<Byte>, e: Entry, end: nat, alnum: char -> bool)
    requires end <= |b|
  {
    HeaderWith(b, e, end, NamesOf(e, alnum))
  }

  ghost function NamesOf(e: Entry, alnum: char -> bool): seq<Byte> -> bool { (raw: seq<Byte>) => Names(raw, e, alnum) }

  ghost predicate Names(raw: seq<Byte>, e: Entry, alnum: char -> bool) {
    exists name :: Utf8.Decode(raw) == Some(name) && NameOfEntry(e, name, alnum)
  }

  predicate NameOfEntry(e: Entry, name: string, alnum: char -> bool) {
    && (e.isDir <==> EndsWithSlash(name)) && e.name == (if e.isDir then TrimEndSlashes(name) else name)
    && HarmlessName(e.name) && InPackage(Split(e.name), alnum)
  }

  lemma HeaderIff(b: seq<Byte>, cursor: nat, end: nat, h: Header)
    requires end <= |b|
    ensures HeaderAt(b, cursor, end) == Ok(h) <==>
              && cursor + 46 <= h.next <= end && b[cursor..cursor + 4] == [0x50, 0x4B, 1, 2]
              && h.size == Four(b, cursor + 24) && h.nameLen == Two(b, cursor + 28)
              && h.next == cursor + 46 + h.nameLen + Two(b, cursor + 30) + Two(b, cursor + 32)
  {
    if cursor + 4 <= |b| {
      FourIs(b, cursor);
      SignatureIs(b, cursor, 1, 2);
    }
    if cursor + 46 <= |b| {
      FourIs(b, cursor + 24);
    }
  }

  lemma HarmlessIff(text: string)
    ensures HasIllegalParts(text) <==> !HarmlessName(text)
  {}

  lemma {:induction false} TrimmedTwice(s: string)
    ensures TrimEndSlashes(TrimEndSlashes(s)) == TrimEndSlashes(s)
  {
    if s != "" && s[|s| - 1] == '/' {
      TrimmedTwice(s[..|s| - 1]);
    }
  }

  /** What the name of an entry must be for the entry to be accepted. */
  lemma NamedIff(start: nat, h: Header, raw: seq<Byte>, alnum: char -> bool, e: Entry)
    ensures var rules := PackageRules(alnum);
            NamedEntry(start, h, raw, rules) == Ok(e) && LayoutRefusal(e, rules) == None <==>
              e.start == start && e.next == h.next && e.size == h.size && Names(raw, e, alnum)
  {
    HarmlessIff(e.name);
    TrimmedTwice(e.name);
    if Utf8.Decode(raw).Some? {
      var name := Utf8.Decode(raw).value;
      TrimmedTwice(name);
      TrimEndSlashesIff(name, TrimEndSlashes(name));
      if e.name == Normalized(name) && e.isDir == EndsWithSlash(name) {
        TrimEndSlashesIff(e.name, e.name);
        RelativePathIff(e.name, e.isDir, e.name, alnum);
      }
    }
  }

  /** How rules accept the name of an entry whose header has been read. */
  ghost predicate AcceptsNames(rules: Rules, e: Entry, named: seq<Byte> -> bool) {
    forall h, raw :: NamedEntry(e.start, h, raw, rules) == Ok(e) && LayoutRefusal(e, rules) == None <==>
                       e.next == h.next && e.size == h.size && named(raw)
  }

  lemma HeaderNeeded(b: seq<Byte>, end: nat, e: Entry, named: seq<Byte> -> bool)
    requires end <= |b|
    ensures HeaderWith(b, e, end, named) <==>
              && HeaderAt(b, e.start, end).Ok?
              && var h := HeaderAt(b, e.start, end).value;
                 e.next == h.next && e.size == h.size && named(b[e.start + 46..e.start + 46 + h.nameLen])
  {
    if HeaderAt(b, e.start, end).Ok? {
      HeaderIff(b, e.start, end, HeaderAt(b, e.start, end).value);
    } else if HeaderWith(b, e, end, named) {
      HeaderIff(b, e.start, end, Header(Four(b, e.start + 24), Two(b, e.start + 28), e.next));
    }
  }

  lemma EntryWith(b: seq<Byte>, end: nat, e: Entry, rules: Rules, named: seq<Byte> -> bool)
    requires end <= |b| && AcceptsNames(rules, e, named)
    ensures var c := ChecksOf(b, end, rules);
            c.read(e.start) == Ok(e) && c.refuse(e) == None <==> HeaderWith(b, e, end, named)
  {
    HeaderNeeded(b, end, e, named);
    var found := HeaderAt(b, e.start, end);
    if found.Ok? {
      var raw := b[e.start + 46..e.start + 46 + found.value.nameLen];
      assert ChecksOf(b, end, rules).read(e.start) == NamedEntry(e.start, found.value, raw, rules);
    }
  }

  lemma EntryIff(b: seq<Byte>, end: nat, alnum: char -> bool, e: Entry)
    requires end <= |b|
    ensures var c := ChecksOf(b, end, PackageRules(alnum));
            c.read(e.start) == Ok(e) && c.refuse(e) == None <==> HeaderOf(b, e, end, alnum)
  {
    forall h, raw
      ensures NamedEntry(e.start, h, raw, PackageRules(alnum)) == Ok(e) && LayoutRefusal(e, PackageRules(alnum)) == None <==>
                e.next == h.next && e.size == h.size && NamesOf(e, alnum)(raw)
    {
      NamedIff(e.start, h, raw, alnum, e);
    }
    EntryWith(b, end, e, PackageRules(alnum), NamesOf(e, alnum));
  }

  /** The last end record of the file is at `p`. */
  ghost predicate LastEndAt(b: seq<Byte>, p: nat) { EndAt(b, p) && forall q :: p < q < |b| ==> !EndAt(b, q) }

  lemma FoundIff(b: seq<Byte>, p: nat)
    ensures FindEnd(b) == Some(p) <==> LastEndAt(b, p)
  {
    EndIff(b, p);
    forall q: nat | p < q < |b|
      ensures IsEnd(b, q) <==> EndAt(b, q)
    {
      EndIff(b, q);
    }
    if LastEndAt(b, p) {
      LastEndIs(b, |b|, p);
    }
  }

  /** The entries cover the directory with their headers, one after the other, and no two have the same name. */
  ghost predicate Directory(b: seq<Byte>, es: seq<Entry>, lo: nat, end: nat, alnum: char -> bool)
    requires end <= |b|
  {
    && Tiles(es, lo, end) && (forall i :: 0 <= i < |es| ==> HeaderOf(b, es[i], end, alnum))
    && forall i, j :: 0 <= i < j < |es| ==> es[i].name != es[j].name
  }

  lemma DirectoryIff(b: seq<Byte>, es: seq<Entry>, lo: nat, end: nat, alnum: char -> bool)
    requires end <= |b|
    ensures WellFormed(ChecksOf(b, end, PackageRules(alnum)), es, lo, end, {}) <==> Directory(b, es, lo, end, alnum)
  {
    forall i | 0 <= i < |es|
      ensures var c := ChecksOf(b, end, PackageRules(alnum));
              c.read(es[i].start) == Ok(es[i]) && c.refuse(es[i]) == None <==> HeaderOf(b, es[i], end, alnum)
    {
      EntryIff(b, end, alnum, es[i]);
    }
  }

  /** A file is accepted as an archive of `es` exactly when its last end record announces a directory of as many entries
      that ends where the record begins, and the directory consists of headers of them, one after the other. */
  lemma AcceptedBytesIff(b: seq<Byte>, es: seq<Entry>, alnum: char -> bool)
    ensures ParseDirectory(b, PackageRules(alnum)) == Ok(es) <==>
              exists p: nat, lo: nat :: LastEndAt(b, p) && Announces(b, p, lo, |es|) && Directory(b, es, lo, p, alnum)
  {
    var rules := PackageRules(alnum);
    AcceptedIffTiled(b, es, rules);
    if ParseDirectory(b, rules) == Ok(es) {
      var p := FindEnd(b).value;
      var x := ReadExtent(b, p).value;
      FoundIff(b, p);
      ExtentIff(b, p, x);
      DirectoryIff(b, es, x.offset, p, alnum);
      assert LastEndAt(b, p) && Announces(b, p, x.offset, |es|) && Directory(b, es, x.offset, p, alnum);
    }
    if p: nat, lo: nat :| LastEndAt(b, p) && Announces(b, p, lo, |es|) && Directory(b, es, lo, p, alnum) {
      FoundIff(b, p);
      ExtentIff(b, p, Extent(lo, p, |es|));
      DirectoryIff(b, es, lo, p, alnum);
    }
  }
}
