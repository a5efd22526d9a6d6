/** The media index as it is written, and a well-formed one that is too long to be read. */
module IndexText {
  import opened Bytes
  import opened MediaIndex
  import ArchivePath
  import Manifest
  import Toml
  import Utf8

  // ---- Printing ----

  function HexDigit(d: nat): char
    requires d < 16
  {
    if d < 10 then ('0' as int + d) as char else ('a' as int + (d - 10)) as char
  }

  /** Quotes, backslashes and control characters are escaped (RFC 8259, section 7); everything else stands for itself. */
  function EscapedChar(c: char): (s: string)
    ensures |s| >= 1 && (c == '"' ==> |s| == 2)
  {
    if c == '"' || c == '\\' then ['\\', c]
    else if c == '\n' then "\\n"
    else if c == '\r' then "\\r"
    else if c == '\t' then "\\t"
    else if c as int == 8 then "\\b"
    else if c as int == 12 then "\\f"
    else if c as int < 32 then "\\u00" + [HexDigit(c as int / 16), HexDigit(c as int % 16)]
    else [c]
  }

  function Escaped(s: string): string { if s == "" then "" else EscapedChar(s[0]) + Escaped(s[1..]) }

  /** The value of a hex digit. */
  function DigitValue(c: char): nat {
    if '0' <= c <= '9' then c as nat - '0' as nat else if 'a' <= c <= 'f' then 10 + (c as nat - 'a' as nat) else 0
  }

  /** The first character an escaped text stands for, and what is left of it, as a JSON reader takes it (RFC 8259, section 7). */
  function ReadChar(s: string): (r: Option<(char, string)>)
    ensures r.Some? ==> |r.value.1| < |s|
  {
    if s == "" || s[0] == '"' || s[0] as int < 32 then None
    else if s[0] != '\\' then Some((s[0], s[1..]))
    else if |s| < 2 then None
    else match s[1]
      case '"' => Some(('"', s[2..]))
      case '\\' => Some(('\\', s[2..]))
      case 'n' => Some((10 as char, s[2..]))
      case 'r' => Some((13 as char, s[2..]))
      case 't' => Some((9 as char, s[2..]))
      case 'b' => Some((8 as char, s[2..]))
      case 'f' => Some((12 as char, s[2..]))
      case 'u' => if |s| < 6 || s[2..4] != "00" then None else Some(((16 * DigitValue(s[4]) + DigitValue(s[5])) as char, s[6..]))
      case _ => None
  }

  function Unescaped(s: string): Option<string> {
    if s == "" then Some("")
    else match ReadChar(s)
      case None => None
      case Some((c, rest)) => match Unescaped(rest) { case None => None case Some(t) => Some([c] + t) }
  }

  lemma ReadEscapedChar(c: char, rest: string)
    ensures ReadChar(EscapedChar(c) + rest) == Some((c, rest))
  {
    var s := EscapedChar(c) + rest;
    if c as int < 32 && |EscapedChar(c)| == 6 {
      HexDigits(c as int);
      assert s[2..4] == "00" && s[6..] == rest;
    } else {
      assert s[|EscapedChar(c)|..] == rest;
    }
  }

  lemma HexDigits(v: nat)
    requires v < 256
    ensures 16 * DigitValue(HexDigit(v / 16)) + DigitValue(HexDigit(v % 16)) == v
  {}

  /** Reading an escaped text gives the text. */
  lemma {:induction false} EscapedReadsBack(s: string)
    ensures Unescaped(Escaped(s)) == Some(s)
  {
    if s != "" {
      ReadEscapedChar(s[0], Escaped(s[1..]));
      EscapedReadsBack(s[1..]);
      assert s == [s[0]] + s[1..];
    }
  }

  function Text(s: string): string { "\"" + Escaped(s) + "\"" }

  function Indent(depth: nat): (s: string)
    ensures |s| == 2 * depth
  {
    seq(2 * depth, i => ' ')
  }

  function Member(key: string, value: string): (s: string)
    ensures |s| == |key| + |value| + 4
  {
    "\"" + key + "\"" + ": " + value
  }

  function Line(depth: nat, text: string): (s: string)
    ensures |s| == 2 * depth + |text| + 1
  {
    Indent(depth) + text + "\n"
  }

  /** A member that is followed by another one. */
  function Inner(depth: nat, key: string, value: string): (s: string)
    ensures |s| == 2 * depth + |key| + |value| + 6
  {
    Line(depth, Member(key, value) + ",")
  }

  function PrintIdentity(e: IndexEntry): string { Inner(3, "id", Text(e.id)) + Inner(3, "name", Text(e.name)) + Inner(3, "sha256", Text(e.sha)) }

  function PrintOrigin(e: IndexEntry): string {
    Inner(3, "size", Toml.PrintNat(e.size)) + Inner(3, "plugin_id", Text(e.plugin)) + Inner(3, "kind", Text(e.kind))
    + Inner(3, "included", if e.included then "true" else "false")
  }

  function PrintFormat(p: Probe): string {
    Inner(4, "container", Text(p.container)) + Inner(4, "codec", Text(p.codec))
    + Inner(4, "width", Toml.PrintNat(p.width)) + Inner(4, "height", Toml.PrintNat(p.height))
  }

  function PrintTime(p: Probe): string {
    Inner(4, "rotation", Toml.PrintNat(p.rotation))
    + Line(4, Member("duration_us", match p.duration { case None => "null" case Some(n) => Toml.PrintNat(n) }))
  }

  function PrintProbe(p: Probe): string { Line(3, Member("probe", "{")) + PrintFormat(p) + PrintTime(p) + Line(3, "}") }

  function PrintEntry(e: IndexEntry, last: bool): string {
    Line(2, "{") + PrintIdentity(e) + PrintOrigin(e) + PrintProbe(e.probe) + Line(2, if last then "}" else "},")
  }

  function PrintEntries(entries: seq<IndexEntry>): string {
    if entries == [] then "" else PrintEntry(entries[0], |entries| == 1) + PrintEntries(entries[1..])
  }

  /** The pretty-printed index of entries in their order. */
  function PrintIndex(entries: seq<IndexEntry>): string {
    Line(0, "{") + Inner(1, "schema_version", Toml.PrintNat(SCHEMA_VERSION))
    + (if entries == [] then Line(1, Member("entries", "[]")) else Line(1, Member("entries", "[")) + PrintEntries(entries) + Line(1, "]"))
    + "}"
  }

  function IndexBytes(entries: seq<IndexEntry>): seq<Byte> { Utf8.Encode(PrintIndex(entries)) }

  // ---- How long it is ----

  lemma {:induction false} EscapedLength(s: string)
    ensures |Escaped(s)| >= |s|
    ensures (forall i :: 0 <= i < |s| ==> s[i] == '"') ==> |Escaped(s)| == 2 * |s|
  {
    if s != "" {
      EscapedLength(s[1..]);
    }
  }

  lemma IdentityLength(e: IndexEntry)
    ensures |PrintIdentity(e)| == 54 + |Escaped(e.id)| + |Escaped(e.name)| + |Escaped(e.sha)|
  {
    assert |"id"| == 2 && |"name"| == 4 && |"sha256"| == 6;
  }

  lemma OriginLength(e: IndexEntry)
    ensures |PrintOrigin(e)| >= 82 + |Escaped(e.plugin)| + |Escaped(e.kind)|
  {
    assert |"size"| == 4 && |"plugin_id"| == 9 && |"kind"| == 4 && |"included"| == 8;
    assert |"true"| == 4 && |"false"| == 5;
  }

  lemma ProbeLength(p: Probe)
    ensures |PrintProbe(p)| >= 160
  {
    assert |"container"| == 9 && |"codec"| == 5 && |"width"| == 5 && |"height"| == 6;
    assert |PrintFormat(p)| >= 87;
    assert |"rotation"| == 8 && |"duration_us"| == 11;
    assert |PrintTime(p)| >= 48;
    assert |"probe"| == 5;
  }

  lemma EntryLength(e: IndexEntry, last: bool)
    ensures |PrintEntry(e, last)| >= 308 + |Escaped(e.id)| + |Escaped(e.name)| + |Escaped(e.sha)| + |Escaped(e.plugin)| + |Escaped(e.kind)|
  {
    IdentityLength(e);
    OriginLength(e);
    ProbeLength(e.probe);
  }

  lemma {:induction false} EntriesLength(entries: seq<IndexEntry>)
    requires forall i, last: bool :: 0 <= i < |entries| ==> |PrintEntry(entries[i], last)| >= 1032
    ensures |PrintEntries(entries)| >= 1032 * |entries|
  {
    if entries != [] {
      EntriesLength(entries[1..]);
    }
  }

  lemma IndexLength(entries: seq<IndexEntry>)
    requires forall i, last: bool :: 0 <= i < |entries| ==> |PrintEntry(entries[i], last)| >= 1032
    ensures |IndexBytes(entries)| >= 1032 * |entries|
  {
    EntriesLength(entries);
    Manifest.LengthBound(PrintIndex(entries));
  }

  // ---- A long one ----

  function Repeated(c: char, n: nat): (s: string)
    ensures |s| == n && forall i :: 0 <= i < n ==> s[i] == c
  {
    seq(n, i => c)
  }

  /** Different numbers below 4096 have different tags, in their order. */
  function Tag(i: nat, n: nat): (s: string)
    requires i < 4096 && n >= 3
    ensures |s| == n && s[0] == HexDigit(i / 16 / 16) && s[1] == HexDigit(i / 16 % 16) && s[2] == HexDigit(i % 16)
    ensures forall k :: 0 <= k < n ==> ('0' <= s[k] <= '9' || 'a' <= s[k] <= 'f')
  {
    [HexDigit(i / 16 / 16), HexDigit(i / 16 % 16), HexDigit(i % 16)] + Repeated('0', n - 3)
  }

  lemma HexGives(a: nat, b: nat)
    requires a < 16 && b < 16 && HexDigit(a) == HexDigit(b)
    ensures a == b
  {}

  lemma QuotientGives(i: nat, j: nat)
    requires i / 16 == j / 16 && i % 16 == j % 16
    ensures i == j
  {
    assert i == 16 * (i / 16) + i % 16 && j == 16 * (j / 16) + j % 16;
  }

  lemma TagGives(i: nat, j: nat, n: nat)
    requires i < 4096 && j < 4096 && n >= 3 && Tag(i, n) == Tag(j, n)
    ensures i == j
  {
    HexGives(i / 16 / 16, j / 16 / 16);
    HexGives(i / 16 % 16, j / 16 % 16);
    HexGives(i % 16, j % 16);
    QuotientGives(i / 16, j / 16);
    QuotientGives(i, j);
  }

  lemma TagsDiffer(i: nat, j: nat, n: nat)
    requires i < 4096 && j < 4096 && n >= 3 && i != j
    ensures Tag(i, n) != Tag(j, n)
  {
    if Tag(i, n) == Tag(j, n) {
      TagGives(i, j, n);
    }
  }

  /** A reference with names as long as they may be, all of quotes. */
  function LongRef(i: nat): Ref
    requires i < 4096
  {
    Ref(Tag(i, 32), Repeated('"', 200), Tag(i, 64), 0, false, Repeated('p', 100), Repeated('"', 64), Probe("", "", 0, 0, 0, None), None)
  }

  function LongRefs(): seq<Ref> { seq(MAX_INDEX_ENTRIES, i requires 0 <= i < MAX_INDEX_ENTRIES => LongRef(i)) }

  lemma {:induction false} AsciiLength(s: string)
    requires forall i :: 0 <= i < |s| ==> s[i] as int < 128
    ensures Utf8.Length(s) == |s|
  {
    if s != "" {
      AsciiLength(s[1..]);
    }
  }

  lemma QuotesAreFine(n: nat)
    requires n > 0
    ensures ValidText(Repeated('"', n), n)
  {
    Manifest.TrimmedStays(Repeated('"', n));
    AsciiLength(Repeated('"', n));
  }

  lemma PluginIsFine()
    ensures ArchivePath.ValidScopeId(Repeated('p', 100))
  {
    var name := Repeated('p', 100);
    assert ArchivePath.BeforeDot(name)[0] == 'p';
    assert ArchivePath.UpperAscii(ArchivePath.BeforeDot(name))[0] == 'P';
  }

  lemma TagIsHash(i: nat)
    requires i < 4096
    ensures ValidId(Tag(i, 32)) && ArchivePath.IsSha256(Tag(i, 64))
  {}

  lemma LongRefIsFine(i: nat)
    requires i < 4096
    ensures ValidId(LongRef(i).id) && EntryRefusal(EntryOf(LongRef(i), false)) == None
  {
    QuotesAreFine(200);
    QuotesAreFine(64);
    PluginIsFine();
    TagIsHash(i);
  }

  lemma LongEntryLength(i: nat, last: bool)
    requires i < 4096
    ensures |PrintEntry(EntryOf(LongRef(i), false), last)| >= 1032
  {
    var e := EntryOf(LongRef(i), false);
    EntryLength(e, last);
    EscapedLength(e.id);
    EscapedLength(e.name);
    EscapedLength(e.sha);
    EscapedLength(e.plugin);
    EscapedLength(e.kind);
  }

  lemma {:induction false} NothingCarried(refs: seq<Ref>)
    requires forall i :: 0 <= i < |refs| ==> !refs[i].ready
    ensures CollectRefs(refs, false).Ok?
  {
    if refs != [] {
      NothingCarried(refs[..|refs| - 1]);
    }
  }

  lemma LongRefsAreFine()
    ensures var refs := LongRefs();
            && |refs| == MAX_INDEX_ENTRIES && CollectRefs(refs, false).Ok?
            && (forall i :: 0 <= i < |refs| ==> ValidId(refs[i].id) && EntryRefusal(EntryOf(refs[i], false)) == None)
  {
    var refs := LongRefs();
    NothingCarried(refs);
    forall i | 0 <= i < |refs|
      ensures ValidId(refs[i].id) && EntryRefusal(EntryOf(refs[i], false)) == None
    {
      LongRefIsFine(i);
    }
  }

  lemma LongRefsDiffer()
    ensures var refs := LongRefs(); forall i, j :: 0 <= i < j < |refs| ==> refs[i].id != refs[j].id && refs[i].sha != refs[j].sha
  {
    var refs := LongRefs();
    forall i, j | 0 <= i < j < |refs|
      ensures refs[i].id != refs[j].id && refs[i].sha != refs[j].sha
    {
      TagsDiffer(i, j, 32);
      TagsDiffer(i, j, 64);
    }
  }

  lemma LongIndexLength(entries: seq<IndexEntry>)
    requires |entries| == MAX_INDEX_ENTRIES && forall i :: 0 <= i < |entries| ==> entries[i] == EntryOf(LongRef(i), false)
    ensures |IndexBytes(entries)| > MAX_INDEX_BYTES
  {
    forall i, last: bool | 0 <= i < |entries|
      ensures |PrintEntry(entries[i], last)| >= 1032
    {
      LongEntryLength(i, last);
    }
    IndexLength(entries);
  }

  lemma LongEntries()
    requires CollectRefs(LongRefs(), false).Ok?
    ensures var entries := CollectRefs(LongRefs(), false).value.entries;
            |entries| == MAX_INDEX_ENTRIES && forall i :: 0 <= i < |entries| ==> entries[i] == EntryOf(LongRef(i), false)
  {
    CollectGives(LongRefs(), false);
  }

  lemma TooLongIsRefused(index: seq<Byte>, read: seq<Byte> -> Option<Document>)
    requires |index| > MAX_INDEX_BYTES
    ensures IndexRefusal(index, read) == Some(IndexTooLarge)
  {}

  /** 1024 references to different media files, each of them well formed, in the order of their ids: the index that the
      export writes is over 1 MiB, and the import refuses it. */
  lemma LongIndexIsRefused(read: seq<Byte> -> Option<Document>)
    ensures var refs := LongRefs();
            && |refs| <= MAX_INDEX_ENTRIES && CollectRefs(refs, false).Ok?
            && (forall i :: 0 <= i < |refs| ==> ValidId(refs[i].id) && EntryRefusal(EntryOf(refs[i], false)) == None)
            && (forall i, j :: 0 <= i < j < |refs| ==> refs[i].id != refs[j].id && refs[i].sha != refs[j].sha)
            && IndexRefusal(IndexBytes(CollectRefs(refs, false).value.entries), read) == Some(IndexTooLarge)
  {
    LongRefsAreFine();
    LongRefsDiffer();
    LongEntries();
    LongIndexLength(CollectRefs(LongRefs(), false).value.entries);
    TooLongIsRefused(IndexBytes(CollectRefs(LongRefs(), false).value.entries), read);
  }
}
