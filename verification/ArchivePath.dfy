/** Names inside an archive and the relative paths they are allowed to become. */
module ArchivePath {
  import opened Bytes

  const MANIFEST_NAME := "package.toml"

  /** A path inside a package, by its parts. */
  type Path = seq<string>

  // ---- Slash-separated names ----

  function Split(s: string): (r: seq<string>)
    ensures |r| >= 1
  {
    if s == "" then [""]
    else
      var rest := Split(s[1..]);
      if s[0] == '/' then [""] + rest else [[s[0]] + rest[0]] + rest[1..]
  }

  function Join(segs: seq<string>): string
    requires |segs| >= 1
  {
    if |segs| == 1 then segs[0] else segs[0] + "/" + Join(segs[1..])
  }

  lemma {:induction false} SplitSegments(s: string)
    ensures Join(Split(s)) == s
    ensures forall i :: 0 <= i < |Split(s)| ==> '/' !in Split(s)[i]
  {
    if s != "" {
      SplitSegments(s[1..]);
      var rest := Split(s[1..]);
      if s[0] == '/' {
        assert Split(s)[1..] == rest;
      } else {
        assert Split(s)[1..] == rest[1..];
      }
    }
  }

  lemma {:induction false} SplitFirst(a: string, rest: string)
    requires '/' !in a
    ensures Split(a + "/" + rest) == [a] + Split(rest)
  {
    var s := a + "/" + rest;
    if a == "" {
      assert s[1..] == rest;
    } else {
      assert s[1..] == a[1..] + "/" + rest;
      SplitFirst(a[1..], rest);
      assert [a[0]] + a[1..] == a;
    }
  }

  lemma {:induction false} SplitPlain(a: string)
    requires '/' !in a
    ensures Split(a) == [a]
  {
    if a != "" {
      SplitPlain(a[1..]);
      assert [a[0]] + a[1..] == a;
    }
  }

  lemma {:induction false} SplitJoin(segs: seq<string>)
    requires |segs| >= 1 && forall i :: 0 <= i < |segs| ==> '/' !in segs[i]
    ensures Split(Join(segs)) == segs
  {
    if |segs| == 1 {
      SplitPlain(segs[0]);
    } else {
      SplitJoin(segs[1..]);
      SplitFirst(segs[0], Join(segs[1..]));
    }
  }

  function TrimEndSlashes(s: string): string {
    if s != "" && s[|s| - 1] == '/' then TrimEndSlashes(s[..|s| - 1]) else s
  }

  predicate EndsWithSlash(s: string) { s != "" && s[|s| - 1] == '/' }

  // ---- Segments ----

  function UpperAscii(s: string): (r: string)
    ensures |r| == |s|
  {
    seq(|s|, i requires 0 <= i < |s| => if 'a' <= s[i] <= 'z' then (s[i] as int - 32) as char else s[i])
  }

  function BeforeDot(s: string): string {
    if s == "" || s[0] == '.' then "" else [s[0]] + BeforeDot(s[1..])
  }

  const RESERVED_NAMES := {
    "CON", "PRN", "AUX", "NUL",
    "COM1", "COM2", "COM3", "COM4", "COM5", "COM6", "COM7", "COM8", "COM9",
    "LPT1", "LPT2", "LPT3", "LPT4", "LPT5", "LPT6", "LPT7", "LPT8", "LPT9" }

  predicate IsWindowsReserved(name: string) { UpperAscii(BeforeDot(name)) in RESERVED_NAMES }

  /** Both characters are the same ASCII letter, the second one upper-case, or just the same. */
  predicate SameLetter(c: char, upper: char) { if 'a' <= c <= 'z' then c as int - 32 == upper as int else c == upper }

  /** `stem` is what stands before the first dot of the name. */
  predicate IsStem(name: string, stem: string) { '.' !in stem && (name == stem || stem + "." <= name) }

  lemma {:induction false} BeforeDotIff(name: string, stem: string)
    ensures IsStem(name, stem) <==> stem == BeforeDot(name)
  {
    if name != "" && name[0] != '.' {
      BeforeDotIff(name[1..], if stem == "" then "" else stem[1..]);
      if stem != "" && stem[0] == name[0] {
        StemTail(name, stem);
        assert stem == [stem[0]] + stem[1..];
      }
    }
  }

  lemma StemTail(name: string, stem: string)
    requires name != "" && stem != "" && stem[0] == name[0] != '.'
    ensures IsStem(name, stem) <==> IsStem(name[1..], stem[1..])
  {
    var s, t := stem + ".", stem[1..] + ".";
    assert t == s[1..];
    assert name == [name[0]] + name[1..] && stem == [stem[0]] + stem[1..];
    if t <= name[1..] {
      assert name[..|s|] == s;
    }
    if s <= name {
      assert name[1..][..|t|] == t;
    }
  }

  /** A name is reserved exactly if what stands before its first dot is a reserved name, in any case. */
  lemma ReservedIff(name: string, stem: string)
    requires IsStem(name, stem)
    ensures IsWindowsReserved(name) <==>
              exists r :: r in RESERVED_NAMES && |r| == |stem| && forall i :: 0 <= i < |stem| ==> SameLetter(stem[i], r[i])
  {
    BeforeDotIff(name, stem);
    var upper := UpperAscii(stem);
    assert forall i :: 0 <= i < |stem| ==> SameLetter(stem[i], upper[i]);
    if r :| r in RESERVED_NAMES && |r| == |stem| && forall i :: 0 <= i < |stem| ==> SameLetter(stem[i], r[i]) {
      assert r == upper;
    }
  }

  predicate IsLowerOrDigit(c: char) { 'a' <= c <= 'z' || '0' <= c <= '9' }

  predicate IsHex(c: char) { '0' <= c <= '9' || 'a' <= c <= 'f' || 'A' <= c <= 'F' }

  /** Package and plugin ids. Accepted characters are ASCII, so the byte length is the character count. */
  predicate ValidScopeId(s: string) {
    && s != "" && IsLowerOrDigit(s[0])
    && (forall i :: 0 < i < |s| ==> IsLowerOrDigit(s[i]) || s[i] in ".-_")
    && |s| <= 100
    && !IsWindowsReserved(s)
  }

  /** `alnum` is the library's Unicode test for letters and digits. */
  predicate ValidSegment(s: string, alnum: char -> bool) {
    && s != "" && s[0] != '.' && s[|s| - 1] != '.'
    && !IsWindowsReserved(s)
    && forall i :: 0 <= i < |s| ==> alnum(s[i]) || s[i] in ".-_# "
  }

  datatype PathError = Backslash | EmptyPath | BadSegment(segment: string) | NotWhitelisted(top: string)
                     | MissingPlugin | BadPluginId(id: string) | BadMediaPath

  /** Checks every segment and keeps it as it is. */
  function SanitizeSegments(segs: seq<string>, alnum: char -> bool): Result<seq<string>, PathError> {
    if segs == [] then Ok([])
    else if !ValidSegment(segs[0], alnum) then Err(BadSegment(segs[0]))
    else
      var rest :- SanitizeSegments(segs[1..], alnum);
      Ok([segs[0]] + rest)
  }

  function SanitizeRelPath(rel: string, alnum: char -> bool): Result<seq<string>, PathError> {
    if '\\' in rel then Err(Backslash)
    else if rel == "" then Err(EmptyPath)
    else SanitizeSegments(Split(rel), alnum)
  }

  /** Each remaining segment goes through the general path check on its own, and its last piece is kept. */
  function SanitizeEach(segs: seq<string>, alnum: char -> bool): Result<seq<string>, PathError> {
    if segs == [] then Ok([])
    else
      var pieces :- SanitizeRelPath(segs[0], alnum);
      var rest :- SanitizeEach(segs[1..], alnum);
      if pieces == [] then Err(EmptyPath) else Ok([pieces[|pieces| - 1]] + rest)
  }

  predicate IsSha256(s: string) { |s| == 64 && forall i :: 0 <= i < 64 ==> IsHex(s[i]) }

  /** What the top-level layout refuses; the segments below the top are checked separately. */
  function LayoutError(top: string, rest: seq<string>): Option<PathError> {
    if top == "shared" then None
    else if top == "plugins" then
      if rest == [] then Some(MissingPlugin)
      else if !ValidScopeId(rest[0]) then Some(BadPluginId(rest[0]))
      else None
    else if top == "media" then
      if rest == ["index.json"] || (|rest| == 2 && rest[0] == "files" && IsSha256(rest[1])) then None else Some(BadMediaPath)
    else Some(NotWhitelisted(top))
  }

  function RelativePath(name: string, isDir: bool, alnum: char -> bool): Result<seq<string>, PathError> {
    var normalized := if isDir then TrimEndSlashes(name) else name;
    if normalized == MANIFEST_NAME then Ok([normalized])
    else
      var segments := Split(normalized);
      match LayoutError(segments[0], segments[1..])
      case Some(e) => Err(e)
      case None => Prefixed(segments[0], segments[1..], alnum)
  }

  function Prefixed(top: string, rest: seq<string>, alnum: char -> bool): Result<seq<string>, PathError> {
    var out :- SanitizeEach(rest, alnum);
    Ok([top] + out)
  }

  // ---- Where an accepted name may lead ----

  predicate SafeSegment(s: string) { s != "" && s != "." && s != ".." && '/' !in s && '\\' !in s }

  /** A non-empty chain of ordinary names: joined to a directory it stays strictly below it. */
  predicate StrictlyBelow(path: seq<string>) {
    path != [] && forall i :: 0 <= i < |path| ==> SafeSegment(path[i])
  }

  lemma {:induction false} SanitizeEachKeeps(segs: seq<string>, alnum: char -> bool)
    requires forall i :: 0 <= i < |segs| ==> '/' !in segs[i]
    ensures SanitizeEach(segs, alnum).Ok? <==>
              forall i :: 0 <= i < |segs| ==> ValidSegment(segs[i], alnum) && '\\' !in segs[i]
    ensures SanitizeEach(segs, alnum).Ok? ==> SanitizeEach(segs, alnum).value == segs
    ensures SanitizeEach(segs, alnum).Ok? ==> forall i :: 0 <= i < |segs| ==> SafeSegment(segs[i])
  {
    if segs != [] {
      SplitPlain(segs[0]);
      assert SanitizeSegments([segs[0]][1..], alnum) == Ok([]);
      SanitizeEachKeeps(segs[1..], alnum);
      assert forall i :: 0 < i < |segs| ==> segs[i] == segs[1..][i - 1];
    }
  }

  lemma LayoutTopIsSafe(top: string, rest: seq<string>)
    requires LayoutError(top, rest) == None
    ensures top == "shared" || top == "plugins" || top == "media"
    ensures SafeSegment(top)
  {}

  lemma ManifestCharacters()
    ensures |MANIFEST_NAME| == 12 && '/' !in MANIFEST_NAME && '\\' !in MANIFEST_NAME
  {}

  lemma ManifestNameIsSafe()
    ensures Split(MANIFEST_NAME) == [MANIFEST_NAME] && SafeSegment(MANIFEST_NAME)
  {
    ManifestCharacters();
    var name := MANIFEST_NAME;
    SplitPlain(name);
  }

  lemma PrefixedKeeps(segments: seq<string>, alnum: char -> bool)
    requires |segments| >= 1 && SafeSegment(segments[0]) && forall i :: 0 <= i < |segments| ==> '/' !in segments[i]
    requires Prefixed(segments[0], segments[1..], alnum).Ok?
    ensures Prefixed(segments[0], segments[1..], alnum).value == segments
    ensures StrictlyBelow(segments)
  {
    var top, rest := segments[0], segments[1..];
    SanitizeEachKeeps(rest, alnum);
    assert segments == [top] + rest;
  }

  /** An accepted name becomes exactly its own segments, and they lead strictly below the extraction directory. */
  lemma RelativePathKeeps(name: string, isDir: bool, alnum: char -> bool)
    requires RelativePath(name, isDir, alnum).Ok?
    ensures var path := RelativePath(name, isDir, alnum).value;
            && path == Split(if isDir then TrimEndSlashes(name) else name)
            && StrictlyBelow(path)
  {
    var normalized := if isDir then TrimEndSlashes(name) else name;
    SplitSegments(normalized);
    if normalized == MANIFEST_NAME {
      ManifestNameIsSafe();
    } else {
      LayoutTopIsSafe(Split(normalized)[0], Split(normalized)[1..]);
      PrefixedKeeps(Split(normalized), alnum);
    }
  }

  /** A segment that can be part of an archive name below the top. */
  predicate GoodSegment(s: string, alnum: char -> bool) { ValidSegment(s, alnum) && '\\' !in s }

  predicate GoodSegments(segs: seq<string>, alnum: char -> bool) { forall i :: 0 <= i < |segs| ==> GoodSegment(segs[i], alnum) }

  /** The four places in a package, by the segments of a name: the manifest, anything below `shared`, anything of a plugin,
      and the media index with its files. */
  predicate InPackage(segs: seq<string>, alnum: char -> bool) {
    || segs == ["package.toml"]
    || (|segs| >= 1 && segs[0] == "shared" && GoodSegments(segs[1..], alnum))
    || (|segs| >= 2 && segs[0] == "plugins" && ValidScopeId(segs[1]) && GoodSegments(segs[1..], alnum))
    || (segs == ["media", "index.json"] && GoodSegment("index.json", alnum))
    || (|segs| == 3 && segs[0] == "media" && segs[1] == "files" && IsSha256(segs[2]) && GoodSegments(segs[1..], alnum))
  }

  /** The name without the slashes at the end of a directory's name. */
  ghost predicate NamesPath(name: string, isDir: bool, text: string) {
    if isDir then (text == "" || text[|text| - 1] != '/') && text <= name && forall i :: |text| <= i < |name| ==> name[i] == '/'
    else text == name
  }

  lemma {:induction false} TrimEndSlashesIff(name: string, text: string)
    ensures NamesPath(name, true, text) <==> text == TrimEndSlashes(name)
  {
    if name != "" && name[|name| - 1] == '/' {
      TrimEndSlashesIff(name[..|name| - 1], text);
      if NamesPath(name, true, text) {
        assert |text| < |name| && text <= name[..|name| - 1];
      }
    } else if NamesPath(name, true, text) {
      assert |text| == |name|;
    }
  }

  lemma PrefixedIff(segs: seq<string>, alnum: char -> bool)
    requires |segs| >= 1 && forall i :: 0 <= i < |segs| ==> '/' !in segs[i]
    ensures Prefixed(segs[0], segs[1..], alnum).Ok? <==> GoodSegments(segs[1..], alnum)
  {
    SanitizeEachKeeps(segs[1..], alnum);
  }

  lemma LayoutIff(segs: seq<string>, alnum: char -> bool)
    requires |segs| >= 1 && segs != [MANIFEST_NAME]
    ensures LayoutError(segs[0], segs[1..]) == None && GoodSegments(segs[1..], alnum) <==> InPackage(segs, alnum)
  {
    var rest := segs[1..];
    assert rest == ["index.json"] <==> |segs| == 2 && segs[1] == "index.json";
    assert segs == ["media", "index.json"] <==> |segs| == 2 && segs[0] == "media" && segs[1] == "index.json";
    if |rest| >= 1 {
      assert rest[0] == segs[1];
    }
    if |rest| == 2 {
      assert rest[1] == segs[2];
    }
  }

  /** A name is accepted exactly when it leads to one of the places in a package, and then becomes its own segments. */
  lemma RelativePathIff(name: string, isDir: bool, text: string, alnum: char -> bool)
    requires NamesPath(name, isDir, text)
    ensures RelativePath(name, isDir, alnum).Ok? <==> InPackage(Split(text), alnum)
    ensures RelativePath(name, isDir, alnum).Ok? ==> RelativePath(name, isDir, alnum).value == Split(text)
  {
    TrimEndSlashesIff(name, text);
    SplitSegments(text);
    if text == MANIFEST_NAME {
      ManifestNameIsSafe();
    } else {
      ManifestNameIsSafe();
      LayoutIff(Split(text), alnum);
      PrefixedIff(Split(text), alnum);
      if RelativePath(name, isDir, alnum).Ok? {
        RelativePathKeeps(name, isDir, alnum);
      }
    }
  }

  /** Distinct accepted names lead to distinct places. */
  lemma DistinctDestinations(a: string, b: string, dirA: bool, dirB: bool, alnum: char -> bool)
    requires RelativePath(a, dirA, alnum).Ok? && RelativePath(b, dirB, alnum).Ok?
    requires (if dirA then TrimEndSlashes(a) else a) != (if dirB then TrimEndSlashes(b) else b)
    ensures RelativePath(a, dirA, alnum).value != RelativePath(b, dirB, alnum).value
  {
    RelativePathKeeps(a, dirA, alnum);
    RelativePathKeeps(b, dirB, alnum);
    SplitSegments(if dirA then TrimEndSlashes(a) else a);
    SplitSegments(if dirB then TrimEndSlashes(b) else b);
  }
}
