/** package.toml: building a manifest from user input, printing it, and reading it back. */
module Manifest {
  import opened Bytes
  import opened Sorting
  import opened Toml
  import Utf8
  import ArchivePath

  /** `plugins` is an ordered map, given by its entries in ascending order of their ids. */
  datatype Manifest = Manifest(
    id: string, name: Option<string>, version: string, author: Option<string>,
    android: seq<string>, web: seq<string>, plugins: seq<(string, bool)>, revision: nat)

  datatype PackageInput = PackageInput(
    id: string, name: Option<string>, version: Option<string>, author: Option<string>,
    android: seq<string>, web: seq<string>, plugins: seq<(string, bool)>)

  datatype ManifestError =
    | BadId | TextEmpty | TextTooLong | VersionCharacters | VersionTooLong | BadTarget | BadPrefix | NoTarget
    | NotUtf8 | Syntax | Duplicate | BadField | MissingField

  /** Scope id check, byte length of a text, and parsing a URL together with the scheme, host, login, query and
      fragment checks, giving its normal form. */
  datatype Library = Library(scopeId: string -> bool, byteLength: string -> nat, canonicalUrl: string -> Option<string>)

  function StandardLibrary(canonicalUrl: string -> Option<string>): Library {
    Library(ArchivePath.ValidScopeId, Utf8.Length, canonicalUrl)
  }

  // ---- Trimming ----

  /** Unicode White_Space. */
  predicate IsWhite(c: char) {
    var v := c as int;
    || 0x9 <= v <= 0xD || v == 0x20 || v == 0x85 || v == 0xA0 || v == 0x1680 || 0x2000 <= v <= 0x200A
    || v == 0x2028 || v == 0x2029 || v == 0x202F || v == 0x205F || v == 0x3000
  }

  predicate IsControl(c: char) { c as int < 0x20 || 0x7F <= c as int < 0xA0 }

  function TrimStart(s: string): string {
    if s != "" && IsWhite(s[0]) then TrimStart(s[1..]) else s
  }

  function TrimEnd(s: string): string {
    if s != "" && IsWhite(s[|s| - 1]) then TrimEnd(s[..|s| - 1]) else s
  }

  function Trim(s: string): string { TrimEnd(TrimStart(s)) }

  predicate Trimmed(s: string) { s == "" || (!IsWhite(s[0]) && !IsWhite(s[|s| - 1])) }

  lemma {:induction false} TrimStartGives(s: string)
    ensures TrimStart(s) == "" || !IsWhite(TrimStart(s)[0])
  {
    if s != "" && IsWhite(s[0]) {
      TrimStartGives(s[1..]);
    }
  }

  lemma {:induction false} TrimEndGives(s: string)
    ensures TrimEnd(s) <= s && (TrimEnd(s) == "" || !IsWhite(TrimEnd(s)[|TrimEnd(s)| - 1]))
  {
    if s != "" && IsWhite(s[|s| - 1]) {
      TrimEndGives(s[..|s| - 1]);
    }
  }

  lemma TrimGives(s: string)
    ensures Trimmed(Trim(s))
  {
    TrimStartGives(s);
    TrimEndGives(TrimStart(s));
  }

  lemma TrimmedStays(s: string)
    requires Trimmed(s)
    ensures Trim(s) == s
  {}

  /** `t` is `raw` without the white space around it. */
  ghost predicate IsTrimOf(raw: string, t: string) { Trimmed(t) && exists a: nat, b: nat :: IsBetween(raw, t, a, b) }

  /** `t` stands in `raw` between white space only. */
  ghost predicate IsBetween(raw: string, t: string, a: nat, b: nat) {
    a <= b <= |raw| && t == raw[a..b] && forall i :: 0 <= i < a || b <= i < |raw| ==> IsWhite(raw[i])
  }

  lemma {:induction false} TrimStartWhite(s: string) returns (a: nat)
    ensures IsBetween(s, TrimStart(s), a, |s|)
  {
    a := 0;
    if s != "" && IsWhite(s[0]) {
      a := TrimStartWhite(s[1..]);
      a := a + 1;
      assert forall i :: 0 < i < a ==> s[i] == s[1..][i - 1];
    }
  }

  lemma {:induction false} TrimEndWhite(s: string)
    ensures IsBetween(s, TrimEnd(s), 0, |TrimEnd(s)|)
  {
    if s != "" && IsWhite(s[|s| - 1]) {
      TrimEndWhite(s[..|s| - 1]);
    }
  }

  lemma TrimIsUnique(raw: string, t: string, u: string, a: nat, b: nat, c: nat, d: nat)
    requires Trimmed(t) && Trimmed(u) && IsBetween(raw, t, a, b) && IsBetween(raw, u, c, d)
    ensures t == u
  {
    assert t != "" ==> !IsWhite(raw[a]) && !IsWhite(raw[b - 1]);
    assert u != "" ==> !IsWhite(raw[c]) && !IsWhite(raw[d - 1]);
  }

  /** Trimming takes away the white space around a text, and nothing else. */
  lemma TrimIff(raw: string, t: string)
    ensures IsTrimOf(raw, t) <==> t == Trim(raw)
  {
    TrimGives(raw);
    var a := TrimStartWhite(raw);
    var rest := TrimStart(raw);
    TrimEndWhite(rest);
    var b: nat := a + |Trim(raw)|;
    assert forall i :: b <= i < |raw| ==> raw[i] == rest[i - a];
    assert IsBetween(raw, Trim(raw), a, b);
    if IsTrimOf(raw, t) {
      var c: nat, d: nat :| IsBetween(raw, t, c, d);
      TrimIsUnique(raw, t, Trim(raw), c, d, a, b);
    }
  }

  // ---- Building a manifest ----

  predicate HasIllegalCharacter(s: string) { exists i :: 0 <= i < |s| && (IsControl(s[i]) || s[i] == '/' || s[i] == '\\') }

  predicate HasControl(s: string) { exists i :: 0 <= i < |s| && IsControl(s[i]) }

  function CleanText(text: Option<string>, lib: Library): Result<Option<string>, ManifestError> {
    match text
    case None => Ok(None)
    case Some(raw) =>
      var t := Trim(raw);
      if t == "" then Err(TextEmpty) else if lib.byteLength(t) > 200 then Err(TextTooLong) else Ok(Some(t))
  }

  function VersionText(version: Option<string>): string {
    match version
    case None => "0.1.0"
    case Some(raw) => if Trim(raw) == "" then "0.1.0" else Trim(raw)
  }

  function CleanVersion(version: Option<string>, lib: Library): Result<string, ManifestError> {
    var v := VersionText(version);
    if HasIllegalCharacter(v) then Err(VersionCharacters) else if lib.byteLength(v) > 64 then Err(VersionTooLong) else Ok(v)
  }

  function CleanTarget(raw: string, lib: Library): Result<string, ManifestError> {
    var t := Trim(raw);
    if t == "" || lib.byteLength(t) > 200 || HasIllegalCharacter(t) then Err(BadTarget) else Ok(t)
  }

  function CleanPrefix(raw: string, lib: Library): Result<string, ManifestError> {
    var p := Trim(raw);
    if lib.byteLength(p) > 4096 || HasControl(p) then Err(BadPrefix)
    else match lib.canonicalUrl(p) case None => Err(BadPrefix) case Some(url) => Ok(url)
  }

  /** Cleans every item and keeps the first of equal ones. */
  function CleanAll(raws: seq<string>, clean: string -> Result<string, ManifestError>, kept: seq<string>): Result<seq<string>, ManifestError> {
    if raws == [] then Ok(kept)
    else
      var item :- clean(raws[0]);
      CleanAll(raws[1..], clean, if item in kept then kept else kept + [item])
  }

  function IntoManifest(input: PackageInput, revision: nat, lib: Library): Result<Manifest, ManifestError> {
    if !lib.scopeId(input.id) then Err(BadId)
    else
      var name :- CleanText(input.name, lib);
      var version :- CleanVersion(input.version, lib);
      var author :- CleanText(input.author, lib);
      var android :- CleanAll(input.android, raw => CleanTarget(raw, lib), []);
      var web :- CleanAll(input.web, raw => CleanPrefix(raw, lib), []);
      if android == [] && web == [] then Err(NoTarget)
      else if exists i :: 0 <= i < |input.plugins| && !lib.scopeId(input.plugins[i].0) then Err(BadId)
      else Ok(Manifest(input.id, name, version, author, android, web, input.plugins, revision))
  }

  /** The loop over the targets, pushing what is not there yet. */
  method CollectClean(raws: seq<string>, clean: string -> Result<string, ManifestError>) returns (r: Result<seq<string>, ManifestError>)
    ensures r == CleanAll(raws, clean, [])
  {
    var kept: seq<string> := [];
    for i := 0 to |raws|
      invariant CleanAll(raws, clean, []) == CleanAll(raws[i..], clean, kept)
    {
      var item := clean(raws[i]);
      assert raws[i..][1..] == raws[i + 1..];
      if item.Err? {
        return Err(item.error);
      }
      if item.value !in kept {
        kept := kept + [item.value];
      }
    }
    return Ok(kept);
  }

  // ---- Printing ----

  function OptionalText(key: Key, text: Option<string>): seq<Statement> {
    match text case None => [] case Some(t) => [Pair(key, Str(t))]
  }

  function TargetStatements(table: Table, key: Key, items: seq<string>): seq<Statement> {
    if items == [] then [] else [Header(table), Pair(key, Array(items))]
  }

  function PluginStatements(plugins: seq<(string, bool)>): seq<Statement> {
    if plugins == [] then []
    else [Header(Plugin(plugins[0].0)), Pair(Required, Bool(plugins[0].1))] + PluginStatements(plugins[1..])
  }

  function Statements(m: Manifest): seq<Statement> {
    [Pair(Id, Str(m.id))] + OptionalText(Name, m.name) + [Pair(Version, Str(m.version))] + OptionalText(Author, m.author)
    + [Pair(Revision, Int(m.revision))]
    + TargetStatements(Android, Packages, m.android) + TargetStatements(Web, UrlPrefixes, m.web) + PluginStatements(m.plugins)
  }

  function Serialize(m: Manifest): string { Print(ManifestGrammar(), Statements(m)) }

  function PrintedBytes(m: Manifest): seq<Byte> { Utf8.Encode(Serialize(m)) }

  // ---- Reading ----

  datatype Place = AtTop | InAndroid | InWeb | InPlugin

  /** The document read so far: a field is None until it is given, a table None until its header. */
  datatype Raw = Raw(
    id: Option<string>, name: Option<string>, version: Option<string>, author: Option<string>, revision: Option<nat>,
    android: Option<Option<seq<string>>>, web: Option<Option<seq<string>>>, plugins: seq<(string, Option<bool>)>, at: Place)

  const EMPTY_DOCUMENT := Raw(None, None, None, None, None, None, None, [], AtTop)

  /** One statement; unknown fields, wrong types and repetitions are refused. */
  function Accept(raw: Raw, s: Statement): Result<Raw, ManifestError> {
    match s
    case Header(Android) => if raw.android.Some? then Err(Duplicate) else Ok(raw.(android := Some(None), at := InAndroid))
    case Header(Web) => if raw.web.Some? then Err(Duplicate) else Ok(raw.(web := Some(None), at := InWeb))
    case Header(Plugin(id)) =>
      if exists i :: 0 <= i < |raw.plugins| && raw.plugins[i].0 == id then Err(Duplicate)
      else Ok(raw.(plugins := raw.plugins + [(id, None)], at := InPlugin))
    case Pair(key, value) =>
      match (raw.at, key, value)
      case (AtTop, Id, Str(t)) => if raw.id.Some? then Err(Duplicate) else Ok(raw.(id := Some(t)))
      case (AtTop, Name, Str(t)) => if raw.name.Some? then Err(Duplicate) else Ok(raw.(name := Some(t)))
      case (AtTop, Version, Str(t)) => if raw.version.Some? then Err(Duplicate) else Ok(raw.(version := Some(t)))
      case (AtTop, Author, Str(t)) => if raw.author.Some? then Err(Duplicate) else Ok(raw.(author := Some(t)))
      case (AtTop, Revision, Int(n)) => if raw.revision.Some? then Err(Duplicate) else Ok(raw.(revision := Some(n)))
      case (InAndroid, Packages, Array(items)) =>
        if raw.android != Some(None) then Err(Duplicate) else Ok(raw.(android := Some(Some(items))))
      case (InWeb, UrlPrefixes, Array(items)) =>
        if raw.web != Some(None) then Err(Duplicate) else Ok(raw.(web := Some(Some(items))))
      case (InPlugin, Required, Bool(b)) =>
        var n := |raw.plugins|;
        if n == 0 || raw.plugins[n - 1].1.Some? then Err(Duplicate)
        else Ok(raw.(plugins := raw.plugins[n - 1 := (raw.plugins[n - 1].0, Some(b))]))
      case (_, _, _) => Err(BadField)
  }

  function AcceptAll(raw: Raw, doc: seq<Statement>): Result<Raw, ManifestError>
    decreases |doc|
  {
    if doc == [] then Ok(raw)
    else
      var next :- Accept(raw, doc[0]);
      AcceptAll(next, doc[1..])
  }

  /** The table or field a statement is about has been given. */
  ghost predicate WasGiven(raw: Raw, s: Statement) {
    match s
    case Header(Android) => raw.android.Some?
    case Header(Web) => raw.web.Some?
    case Header(Plugin(id)) => exists i :: 0 <= i < |raw.plugins| && raw.plugins[i].0 == id
    case Pair(key, _) =>
      match key
      case Id => raw.id.Some?
      case Name => raw.name.Some?
      case Version => raw.version.Some?
      case Author => raw.author.Some?
      case Revision => raw.revision.Some?
      case Packages => raw.android.Some? && raw.android.value.Some?
      case UrlPrefixes => raw.web.Some? && raw.web.value.Some?
      case _ => false
  }

  /** Both statements open the same table, or give the same field; only `required` may be given in several tables. */
  predicate SameField(s: Statement, t: Statement) {
    match (s, t)
    case (Header(a), Header(b)) => a == b
    case (Pair(a, _), Pair(b, _)) => a == b && a != Required
    case (_, _) => false
  }

  lemma GivenStays(raw: Raw, s: Statement, t: Statement)
    requires Accept(raw, s).Ok? && (WasGiven(raw, t) || SameField(s, t))
    ensures WasGiven(Accept(raw, s).value, t)
  {
    var next := Accept(raw, s).value;
    assert forall i :: 0 <= i < |raw.plugins| ==> i < |next.plugins| && next.plugins[i].0 == raw.plugins[i].0;
    if s.Header? && s.table.Plugin? {
      assert next.plugins[|raw.plugins|].0 == s.table.id;
    }
  }

  lemma GivenIsRefused(raw: Raw, s: Statement)
    requires WasGiven(raw, s)
    ensures Accept(raw, s).Err?
  {}

  lemma {:induction false} GivenAlready(raw: Raw, doc: seq<Statement>, j: nat)
    requires j < |doc| && WasGiven(raw, doc[j])
    ensures AcceptAll(raw, doc).Err?
    decreases j
  {
    if j == 0 {
      GivenIsRefused(raw, doc[0]);
    } else if Accept(raw, doc[0]).Ok? {
      GivenStays(raw, doc[0], doc[j]);
      GivenAlready(Accept(raw, doc[0]).value, doc[1..], j - 1);
    }
  }

  /** A document that opens a table twice or gives a field twice is refused. */
  lemma {:induction false} RepetitionIsRefused(raw: Raw, doc: seq<Statement>, i: nat, j: nat)
    requires i < j < |doc| && SameField(doc[i], doc[j])
    ensures AcceptAll(raw, doc).Err?
    decreases i
  {
    if Accept(raw, doc[0]).Ok? {
      var next := Accept(raw, doc[0]).value;
      if i == 0 {
        GivenStays(raw, doc[0], doc[j]);
        GivenAlready(next, doc[1..], j - 1);
      } else {
        RepetitionIsRefused(next, doc[1..], i - 1, j - 1);
      }
    }
  }

  /** Insertion into the ordered map. */
  function Insert(entries: seq<(string, bool)>, id: string, required: bool): seq<(string, bool)> {
    if entries == [] then [(id, required)]
    else if id == entries[0].0 then [(id, required)] + entries[1..]
    else if Less(id, entries[0].0) then [(id, required)] + entries
    else [entries[0]] + Insert(entries[1..], id, required)
  }

  function CollectPlugins(plugins: seq<(string, Option<bool>)>): Result<seq<(string, bool)>, ManifestError> {
    if plugins == [] then Ok([])
    else
      var n := |plugins| - 1;
      var rest :- CollectPlugins(plugins[..n]);
      match plugins[n].1 case None => Err(MissingField) case Some(b) => Ok(Insert(rest, plugins[n].0, b))
  }

  function Listed(table: Option<Option<seq<string>>>): seq<string> {
    match table case Some(Some(items)) => items case _ => []
  }

  function Finish(raw: Raw, lib: Library): Result<Manifest, ManifestError> {
    var plugins :- CollectPlugins(raw.plugins);
    if raw.id == None then Err(MissingField)
    else
      IntoManifest(PackageInput(raw.id.value, raw.name, raw.version, raw.author, Listed(raw.android), Listed(raw.web), plugins),
                   if raw.revision.Some? then raw.revision.value else 1, lib)
  }

  function ParseText(text: string, lib: Library): Result<Manifest, ManifestError> {
    match Read(ManifestGrammar(), text)
    case None => Err(Syntax)
    case Some(doc) =>
      var raw :- AcceptAll(EMPTY_DOCUMENT, doc);
      Finish(raw, lib)
  }

  function ParsePackageToml(bytes: seq<Byte>, lib: Library): Result<Manifest, ManifestError> {
    match Utf8.Decode(bytes)
    case None => Err(NotUtf8)
    case Some(text) => ParseText(text, lib)
  }

  // ---- Interpreting the printed statements ----

  predicate Ascending(plugins: seq<(string, bool)>) {
    forall i, j :: 0 <= i < j < |plugins| ==> Less(plugins[i].0, plugins[j].0)
  }

  lemma {:induction false} AcceptAppend(raw: Raw, a: seq<Statement>, b: seq<Statement>)
    ensures AcceptAll(raw, a + b) == if AcceptAll(raw, a).Err? then AcceptAll(raw, a) else AcceptAll(AcceptAll(raw, a).value, b)
    decreases |a|
  {
    if a == [] {
      assert a + b == b;
    } else {
      assert (a + b)[1..] == a[1..] + b;
      if Accept(raw, a[0]).Ok? {
        AcceptAppend(Accept(raw, a[0]).value, a[1..], b);
      }
    }
  }

  function Given(plugins: seq<(string, bool)>): (r: seq<(string, Option<bool>)>)
    ensures |r| == |plugins|
  {
    seq(|plugins|, i requires 0 <= i < |plugins| => (plugins[i].0, Some(plugins[i].1)))
  }

  lemma AcceptRequired(plugins: seq<(string, Option<bool>)>, begun: Raw, id: string, required: bool)
    requires begun.plugins == plugins + [(id, None)] && begun.at == InPlugin
    ensures Accept(begun, Pair(Required, Bool(required))) == Ok(begun.(plugins := plugins + [(id, Some(required))]))
  {
    assert begun.plugins[|plugins|] == (id, None);
    assert begun.plugins[|plugins| := (id, Some(required))] == plugins + [(id, Some(required))];
  }

  lemma AcceptPlugin(raw: Raw, id: string, required: bool)
    requires forall i :: 0 <= i < |raw.plugins| ==> raw.plugins[i].0 != id
    ensures AcceptAll(raw, [Header(Plugin(id)), Pair(Required, Bool(required))]) ==
              Ok(raw.(plugins := raw.plugins + [(id, Some(required))], at := InPlugin))
  {
    var begun := raw.(plugins := raw.plugins + [(id, None)], at := InPlugin);
    AcceptRequired(raw.plugins, begun, id, required);
    AcceptTwo(raw, Header(Plugin(id)), begun, Pair(Required, Bool(required)));
  }

  lemma {:induction false} AcceptPlugins(raw: Raw, plugins: seq<(string, bool)>, done: nat)
    requires done <= |plugins| && Ascending(plugins) && raw.plugins == Given(plugins[..done])
    ensures AcceptAll(raw, PluginStatements(plugins[done..])) ==
              Ok(raw.(plugins := Given(plugins), at := if done < |plugins| then InPlugin else raw.at))
    decreases |plugins| - done
  {
    if done == |plugins| {
      assert plugins[..done] == plugins;
    } else {
      var (id, required) := plugins[done];
      forall i | 0 <= i < |raw.plugins|
        ensures raw.plugins[i].0 != id
      {
        LessIsStrict(plugins[i].0, plugins[done].0);
      }
      var next := raw.(plugins := Given(plugins[..done + 1]), at := InPlugin);
      assert Given(plugins[..done + 1]) == raw.plugins + [(id, Some(required))];
      AcceptPlugin(raw, id, required);
      assert plugins[done..][1..] == plugins[done + 1..];
      AcceptAppend(raw, [Header(Plugin(id)), Pair(Required, Bool(required))], PluginStatements(plugins[done + 1..]));
      AcceptPlugins(next, plugins, done + 1);
    }
  }

  lemma {:induction false} InsertLast(entries: seq<(string, bool)>, id: string, required: bool)
    requires forall i :: 0 <= i < |entries| ==> Less(entries[i].0, id)
    ensures Insert(entries, id, required) == entries + [(id, required)]
  {
    if entries != [] {
      LessIsStrict(entries[0].0, id);
      InsertLast(entries[1..], id, required);
    }
  }

  lemma {:induction false} CollectGiven(plugins: seq<(string, bool)>)
    requires Ascending(plugins)
    ensures CollectPlugins(Given(plugins)) == Ok(plugins)
  {
    if plugins != [] {
      var n := |plugins| - 1;
      assert Given(plugins)[..n] == Given(plugins[..n]);
      CollectGiven(plugins[..n]);
      InsertLast(plugins[..n], plugins[n].0, plugins[n].1);
      assert plugins[..n] + [plugins[n]] == plugins;
    }
  }

  /** What the top-level fields of a printed manifest leave behind. */
  function TopOf(m: Manifest): Raw {
    EMPTY_DOCUMENT.(id := Some(m.id), name := m.name, version := Some(m.version), author := m.author, revision := Some(m.revision))
  }

  function Table(items: seq<string>): Option<Option<seq<string>>> { if items == [] then None else Some(Some(items)) }

  lemma AcceptSingle(raw: Raw, s: Statement)
    ensures AcceptAll(raw, [s]) == Accept(raw, s)
  {
    assert [s][1..] == [];
  }

  lemma AcceptTwo(raw: Raw, s: Statement, next: Raw, t: Statement)
    requires Accept(raw, s) == Ok(next)
    ensures AcceptAll(raw, [s, t]) == Accept(next, t)
  {
    assert [s, t][1..] == [t];
    AcceptSingle(next, t);
  }

  lemma AcceptTop(m: Manifest)
    ensures AcceptAll(EMPTY_DOCUMENT, [Pair(Id, Str(m.id))] + OptionalText(Name, m.name) + [Pair(Version, Str(m.version))]
                             + OptionalText(Author, m.author) + [Pair(Revision, Int(m.revision))]) == Ok(TopOf(m))
  {
    var a, b, c, d, e := [Pair(Id, Str(m.id))], OptionalText(Name, m.name), [Pair(Version, Str(m.version))],
                         OptionalText(Author, m.author), [Pair(Revision, Int(m.revision))];
    var r1 := EMPTY_DOCUMENT.(id := Some(m.id));
    var r2 := r1.(name := m.name);
    var r3 := r2.(version := Some(m.version));
    var r4 := r3.(author := m.author);
    AcceptSingle(EMPTY_DOCUMENT, a[0]);
    AcceptOptional(r1, Name, m.name);
    AcceptAppend(EMPTY_DOCUMENT, a, b);
    AcceptSingle(r2, c[0]);
    AcceptAppend(EMPTY_DOCUMENT, a + b, c);
    AcceptOptional(r3, Author, m.author);
    AcceptAppend(EMPTY_DOCUMENT, a + b + c, d);
    AcceptSingle(r4, e[0]);
    AcceptAppend(EMPTY_DOCUMENT, a + b + c + d, e);
  }

  lemma AcceptOptional(raw: Raw, key: Key, text: Option<string>)
    requires raw.at == AtTop && ((key == Name && raw.name == None) || (key == Author && raw.author == None))
    ensures AcceptAll(raw, OptionalText(key, text)) == Ok(if key == Name then raw.(name := text) else raw.(author := text))
  {
    if text.Some? {
      AcceptSingle(raw, Pair(key, Str(text.value)));
    }
  }

  lemma AcceptTargets(raw: Raw, items: seq<string>)
    ensures raw.android == None ==>
              AcceptAll(raw, TargetStatements(Android, Packages, items)) ==
                Ok(raw.(android := Table(items), at := if items == [] then raw.at else InAndroid))
    ensures raw.web == None ==>
              AcceptAll(raw, TargetStatements(Web, UrlPrefixes, items)) ==
                Ok(raw.(web := Table(items), at := if items == [] then raw.at else InWeb))
  {
    if items != [] {
      if raw.android == None {
        AcceptTwo(raw, Header(Android), raw.(android := Some(None), at := InAndroid), Pair(Packages, Array(items)));
      }
      if raw.web == None {
        AcceptTwo(raw, Header(Web), raw.(web := Some(None), at := InWeb), Pair(UrlPrefixes, Array(items)));
      }
    }
  }

  /** The statements of a manifest are accepted and give its fields back. */
  lemma AcceptStatements(m: Manifest)
    requires Ascending(m.plugins)
    ensures var r := AcceptAll(EMPTY_DOCUMENT, Statements(m));
            && r.Ok?
            && r.value.(at := AtTop) == TopOf(m).(android := Table(m.android), web := Table(m.web), plugins := Given(m.plugins))
  {
    var top := [Pair(Id, Str(m.id))] + OptionalText(Name, m.name) + [Pair(Version, Str(m.version))]
               + OptionalText(Author, m.author) + [Pair(Revision, Int(m.revision))];
    var a, w, p := TargetStatements(Android, Packages, m.android), TargetStatements(Web, UrlPrefixes, m.web), PluginStatements(m.plugins);
    AcceptTop(m);
    var r1 := TopOf(m);
    AcceptTargets(r1, m.android);
    AcceptAppend(EMPTY_DOCUMENT, top, a);
    var r2 := AcceptAll(EMPTY_DOCUMENT, top + a).value;
    AcceptTargets(r2, m.web);
    AcceptAppend(EMPTY_DOCUMENT, top + a, w);
    var r3 := AcceptAll(EMPTY_DOCUMENT, top + a + w).value;
    assert m.plugins[0..] == m.plugins && r3.plugins == Given(m.plugins[..0]);
    AcceptPlugins(r3, m.plugins, 0);
    AcceptAppend(EMPTY_DOCUMENT, top + a + w, p);
  }

  /** The input a manifest is read back as. */
  function Reinput(m: Manifest): PackageInput {
    PackageInput(m.id, m.name, Some(m.version), m.author, m.android, m.web, m.plugins)
  }

  lemma FinishStatements(m: Manifest, lib: Library)
    requires Ascending(m.plugins)
    ensures AcceptAll(EMPTY_DOCUMENT, Statements(m)).Ok?
    ensures Finish(AcceptAll(EMPTY_DOCUMENT, Statements(m)).value, lib) == IntoManifest(Reinput(m), m.revision, lib)
  {
    AcceptStatements(m);
    CollectGiven(m.plugins);
  }

  // ---- Building again from what was built ----

  /** URL normal forms are stable, trimmed and free of control characters, and accepted ids are plain text. */
  ghost predicate Faithful(lib: Library) {
    && (forall u :: lib.canonicalUrl(u).Some? ==>
          var v := lib.canonicalUrl(u).value;
          lib.canonicalUrl(v) == Some(v) && Trimmed(v) && !HasControl(v))
    && (forall s :: lib.scopeId(s) ==> Safe(s))
  }

  ghost predicate Distinct(items: seq<string>) { forall i, j :: 0 <= i < j < |items| ==> items[i] != items[j] }

  ghost predicate CleanedFromSome(clean: string -> Result<string, ManifestError>, item: string) {
    exists raw :: clean(raw) == Ok(item)
  }

  ghost predicate AllCleaned(clean: string -> Result<string, ManifestError>, items: seq<string>) {
    forall i :: 0 <= i < |items| ==> CleanedFromSome(clean, items[i])
  }

  /** Everything kept was cleaned from some input, and nothing twice. */
  lemma {:induction false} CleanAllGives(raws: seq<string>, clean: string -> Result<string, ManifestError>, kept: seq<string>)
    requires Distinct(kept) && AllCleaned(clean, kept) && CleanAll(raws, clean, kept).Ok?
    ensures Distinct(CleanAll(raws, clean, kept).value) && AllCleaned(clean, CleanAll(raws, clean, kept).value)
  {
    if raws != [] {
      var item := clean(raws[0]).value;
      assert CleanedFromSome(clean, item);
      CleanAllGives(raws[1..], clean, if item in kept then kept else kept + [item]);
    }
  }

  /** Items that clean to themselves, without repetitions, come out unchanged; an item that does not spoils it. */
  lemma {:induction false} CleanAllAgain(items: seq<string>, clean: string -> Result<string, ManifestError>, done: nat)
    requires Distinct(items) && done <= |items|
    requires forall i :: 0 <= i < |items| ==> clean(items[i]) == Ok(items[i]) || clean(items[i]).Err?
    ensures CleanAll(items[done..], clean, items[..done]).Ok? <==> forall i :: done <= i < |items| ==> clean(items[i]) == Ok(items[i])
    ensures CleanAll(items[done..], clean, items[..done]).Ok? ==> CleanAll(items[done..], clean, items[..done]).value == items
    decreases |items| - done
  {
    if done < |items| {
      assert items[done..][1..] == items[done + 1..];
      assert items[done] !in items[..done];
      assert items[..done] + [items[done]] == items[..done + 1];
      CleanAllAgain(items, clean, done + 1);
    } else {
      assert items[..done] == items;
    }
  }

  lemma CleanTargetAgain(raw: string, lib: Library)
    requires CleanTarget(raw, lib).Ok?
    ensures CleanTarget(CleanTarget(raw, lib).value, lib) == CleanTarget(raw, lib) && Safe(CleanTarget(raw, lib).value)
  {
    TrimGives(raw);
    TrimmedStays(Trim(raw));
    NoIllegalIsSafe(Trim(raw));
  }

  lemma NoIllegalIsSafe(s: string)
    ensures !HasIllegalCharacter(s) ==> Safe(s)
    ensures !HasControl(s) ==> Safe(s)
  {
    forall i | 0 <= i < |s| && Forbidden(s[i])
      ensures IsControl(s[i])
    {}
  }

  lemma CleanPrefixAgain(raw: string, lib: Library)
    requires Faithful(lib) && CleanPrefix(raw, lib).Ok?
    ensures var u := CleanPrefix(raw, lib).value;
            && Safe(u)
            && CleanPrefix(u, lib) == if lib.byteLength(u) <= 4096 then Ok(u) else Err(BadPrefix)
  {
    var u := CleanPrefix(raw, lib).value;
    TrimmedStays(u);
    NoIllegalIsSafe(u);
  }

  lemma CleanTextAgain(text: Option<string>, lib: Library)
    requires CleanText(text, lib).Ok?
    ensures CleanText(CleanText(text, lib).value, lib) == CleanText(text, lib)
  {
    if text.Some? {
      TrimGives(text.value);
      TrimmedStays(Trim(text.value));
    }
  }

  lemma CleanVersionAgain(version: Option<string>, lib: Library)
    requires CleanVersion(version, lib).Ok?
    ensures var v := CleanVersion(version, lib).value;
            CleanVersion(Some(v), lib) == Ok(v) && Safe(v)
  {
    var v := VersionText(version);
    DefaultVersionTrimmed();
    if version.Some? {
      TrimGives(version.value);
    }
    TrimmedStays(v);
    NoIllegalIsSafe(v);
  }

  lemma DefaultVersionTrimmed()
    ensures Trimmed("0.1.0") && "0.1.0" != ""
  {}

  /** Everything a manifest prints, apart from its name and author, is free of forbidden control characters. */
  ghost predicate PlainText(m: Manifest) {
    && Safe(m.id) && Safe(m.version)
    && (forall i :: 0 <= i < |m.android| ==> Safe(m.android[i]))
    && (forall i :: 0 <= i < |m.web| ==> Safe(m.web[i]))
    && forall i :: 0 <= i < |m.plugins| ==> Safe(m.plugins[i].0)
  }

  ghost predicate PrefixesFit(m: Manifest, lib: Library) {
    forall i :: 0 <= i < |m.web| ==> lib.byteLength(m.web[i]) <= 4096
  }

  /** Building from a built manifest gives it back exactly when its normalised URL prefixes still fit the length limit. */
  lemma RebuildIff(input: PackageInput, revision: nat, lib: Library, m: Manifest)
    requires Faithful(lib) && IntoManifest(input, revision, lib) == Ok(m)
    ensures IntoManifest(Reinput(m), m.revision, lib) == if PrefixesFit(m, lib) then Ok(m) else Err(BadPrefix)
    ensures PlainText(m) && m.plugins == input.plugins
  {
    var target, prefix := (raw: string) => CleanTarget(raw, lib), (raw: string) => CleanPrefix(raw, lib);
    CleanTextAgain(input.name, lib);
    CleanTextAgain(input.author, lib);
    CleanVersionAgain(input.version, lib);
    CleanAllGives(input.android, target, []);
    CleanAllGives(input.web, prefix, []);
    TargetsAgain(m.android, lib);
    PrefixesAgain(m.web, lib);
  }

  lemma TargetsAgain(items: seq<string>, lib: Library)
    requires Distinct(items) && AllCleaned(raw => CleanTarget(raw, lib), items)
    ensures CleanAll(items, raw => CleanTarget(raw, lib), []) == Ok(items)
    ensures forall i :: 0 <= i < |items| ==> Safe(items[i])
  {
    forall i | 0 <= i < |items|
      ensures CleanTarget(items[i], lib) == Ok(items[i]) && Safe(items[i])
    {
      assert CleanedFromSome(raw => CleanTarget(raw, lib), items[i]);
      var raw :| CleanTarget(raw, lib) == Ok(items[i]);
      CleanTargetAgain(raw, lib);
    }
    assert items[0..] == items && items[..0] == [];
    CleanAllAgain(items, raw => CleanTarget(raw, lib), 0);
  }

  lemma {:induction false} CleanAllError(raws: seq<string>, clean: string -> Result<string, ManifestError>, kept: seq<string>, e: ManifestError)
    requires forall i :: 0 <= i < |raws| && clean(raws[i]).Err? ==> clean(raws[i]) == Err(e)
    ensures CleanAll(raws, clean, kept).Err? ==> CleanAll(raws, clean, kept).error == e
  {
    if raws != [] && clean(raws[0]).Ok? {
      var item := clean(raws[0]).value;
      CleanAllError(raws[1..], clean, if item in kept then kept else kept + [item], e);
    }
  }

  lemma PrefixesAgain(items: seq<string>, lib: Library)
    requires Faithful(lib)
    requires Distinct(items) && AllCleaned(raw => CleanPrefix(raw, lib), items)
    ensures CleanAll(items, raw => CleanPrefix(raw, lib), []) ==
              if forall i :: 0 <= i < |items| ==> lib.byteLength(items[i]) <= 4096 then Ok(items) else Err(BadPrefix)
    ensures forall i :: 0 <= i < |items| ==> Safe(items[i])
  {
    var prefix := (raw: string) => CleanPrefix(raw, lib);
    forall i | 0 <= i < |items|
      ensures prefix(items[i]) == (if lib.byteLength(items[i]) <= 4096 then Ok(items[i]) else Err(BadPrefix)) && Safe(items[i])
    {
      assert CleanedFromSome(prefix, items[i]);
      var raw :| CleanPrefix(raw, lib) == Ok(items[i]);
      CleanPrefixAgain(raw, lib);
    }
    assert items[0..] == items && items[..0] == [];
    CleanAllAgain(items, prefix, 0);
    CleanAllError(items, prefix, [], BadPrefix);
  }

  // ---- The round trip ----

  /** What the printed form can carry: names without forbidden control characters and a signed 64-bit revision. */
  ghost predicate Printable(m: Manifest) {
    && (m.name.Some? ==> Safe(m.name.value)) && (m.author.Some? ==> Safe(m.author.value)) && m.revision < I64_LIMIT
  }

  lemma {:induction false} PluginStatementsReadable(plugins: seq<(string, bool)>)
    requires forall i :: 0 <= i < |plugins| ==> Safe(plugins[i].0)
    ensures forall i :: 0 <= i < |PluginStatements(plugins)| ==>
              WellShaped(PluginStatements(plugins)[i]) && ReadableStatement(PluginStatements(plugins)[i])
  {
    if plugins != [] {
      PluginStatementsReadable(plugins[1..]);
    }
  }

  lemma StatementsReadable(m: Manifest)
    requires PlainText(m)
    ensures forall i :: 0 <= i < |Statements(m)| ==> WellShaped(Statements(m)[i])
    ensures (forall i :: 0 <= i < |Statements(m)| ==> ReadableStatement(Statements(m)[i])) <==> Printable(m)
  {
    PluginStatementsReadable(m.plugins);
    var doc := Statements(m);
    assert doc[0] == Pair(Id, Str(m.id));
    var n := |OptionalText(Name, m.name)|;
    var k := |OptionalText(Author, m.author)|;
    assert doc[1 + n] == Pair(Version, Str(m.version));
    assert m.name.Some? ==> doc[1] == Pair(Name, Str(m.name.value));
    assert m.author.Some? ==> doc[2 + n] == Pair(Author, Str(m.author.value));
    assert doc[2 + n + k] == Pair(Revision, Int(m.revision));
  }

  lemma ReadBack(m: Manifest, lib: Library)
    requires Ascending(m.plugins) && PlainText(m)
    ensures ParsePackageToml(Utf8.Encode(Serialize(m)), lib) ==
              if Printable(m) then IntoManifest(Reinput(m), m.revision, lib) else Err(Syntax)
  {
    StatementsReadable(m);
    ReadPrinted(Statements(m));
    FinishStatements(m, lib);
    ParseEncoded(Serialize(m), lib);
  }

  lemma ParseEncoded(text: string, lib: Library)
    ensures ParsePackageToml(Utf8.Encode(text), lib) == ParseText(text, lib)
  {
    Utf8.DecodeEncode(text);
  }

  /** Reading the printed form of a manifest that was built from input gives the same manifest exactly when its name
      and author contain no control character that TOML forbids, its revision fits 63 bits, and its normalised URL
      prefixes still fit the 4096-byte limit. Otherwise it is refused, never read as a different manifest. */
  lemma RoundTrip(input: PackageInput, revision: nat, lib: Library, m: Manifest)
    requires Faithful(lib) && Ascending(input.plugins) && IntoManifest(input, revision, lib) == Ok(m)
    ensures ParsePackageToml(Utf8.Encode(Serialize(m)), lib) ==
              if !Printable(m) then Err(Syntax) else if PrefixesFit(m, lib) then Ok(m) else Err(BadPrefix)
  {
    RebuildIff(input, revision, lib, m);
    ReadBack(m, lib);
  }

  // ---- Whatever is read was built ----

  lemma {:induction false} InsertAscends(entries: seq<(string, bool)>, id: string, required: bool)
    requires Ascending(entries)
    ensures Ascending(Insert(entries, id, required))
    ensures forall e :: e in Insert(entries, id, required) ==> e in entries || e == (id, required)
  {
    if entries == [] || id == entries[0].0 {
    } else if Less(id, entries[0].0) {
      forall j | 0 < j < |entries|
        ensures Less(id, entries[j].0)
      {
        LessIsTransitive(id, entries[0].0, entries[j].0);
      }
    } else {
      LessIsTotal(id, entries[0].0);
      var rest := Insert(entries[1..], id, required);
      InsertAscends(entries[1..], id, required);
      forall j | 0 <= j < |rest|
        ensures Less(entries[0].0, rest[j].0)
      {
        assert rest[j] in rest;
      }
    }
  }

  lemma {:induction false} CollectedAscends(plugins: seq<(string, Option<bool>)>)
    requires CollectPlugins(plugins).Ok?
    ensures Ascending(CollectPlugins(plugins).value)
  {
    if plugins != [] {
      var n := |plugins| - 1;
      CollectedAscends(plugins[..n]);
      InsertAscends(CollectPlugins(plugins[..n]).value, plugins[n].0, plugins[n].1.value);
    }
  }

  /** Every manifest that is read is one that is built from some input with its plugins in order. */
  lemma ReadIsBuilt(bytes: seq<Byte>, lib: Library) returns (input: PackageInput, revision: nat)
    requires ParsePackageToml(bytes, lib).Ok?
    ensures Ascending(input.plugins) && IntoManifest(input, revision, lib) == ParsePackageToml(bytes, lib)
  {
    var doc := Read(ManifestGrammar(), Utf8.Decode(bytes).value).value;
    var raw := AcceptAll(EMPTY_DOCUMENT, doc).value;
    CollectedAscends(raw.plugins);
    var plugins := CollectPlugins(raw.plugins).value;
    input := PackageInput(raw.id.value, raw.name, raw.version, raw.author, Listed(raw.android), Listed(raw.web), plugins);
    revision := if raw.revision.Some? then raw.revision.value else 1;
  }

  // ---- Inputs outside the condition ----

  /** A line break inside a name is accepted when the manifest is built, and its printed form is then refused. */
  lemma LineBreakInNameIsRefused(canonicalUrl: string -> Option<string>)
    requires Faithful(StandardLibrary(canonicalUrl))
    ensures var lib := StandardLibrary(canonicalUrl);
            var input := PackageInput("p", Some("a\nb"), None, None, ["*"], [], []);
            && IntoManifest(input, 1, lib).Ok?
            && ParsePackageToml(Utf8.Encode(Serialize(IntoManifest(input, 1, lib).value)), lib) == Err(Syntax)
  {
    var lib := StandardLibrary(canonicalUrl);
    var input := PackageInput("p", Some("a\nb"), None, None, ["*"], [], []);
    ShortTexts();
    TrimmedStays("a\nb");
    TrimmedStays("*");
    DefaultVersionTrimmed();
    TrimmedStays("0.1.0");
    assert CleanAll(["*"][1..], raw => CleanTarget(raw, lib), ["*"]) == Ok(["*"]);
    var m := IntoManifest(input, 1, lib).value;
    assert Forbidden(m.name.value[1]);
    RoundTrip(input, 1, lib, m);
  }

  lemma ShortTexts()
    ensures Utf8.Length("a\nb") <= 200 && Utf8.Length("*") <= 200 && Utf8.Length("0.1.0") <= 64
    ensures ArchivePath.ValidScopeId("p")
    ensures !HasIllegalCharacter("*") && !HasIllegalCharacter("0.1.0")
  {
    LengthBound("a\nb");
    LengthBound("*");
    LengthBound("0.1.0");
    assert ArchivePath.UpperAscii(ArchivePath.BeforeDot("p"))[0] == 'P';
  }

  lemma {:induction false} LengthBound(s: string)
    ensures |s| <= Utf8.Length(s) <= 4 * |s|
  {
    if s != "" {
      LengthBound(s[1..]);
    }
  }

  /** The package id rule admits only plain text, so only the URL library is left to trust. */
  lemma StandardLibraryIsFaithful(canonicalUrl: string -> Option<string>)
    requires forall u :: canonicalUrl(u).Some? ==>
               var v := canonicalUrl(u).value; canonicalUrl(v) == Some(v) && Trimmed(v) && !HasControl(v)
    ensures Faithful(StandardLibrary(canonicalUrl))
  {
    forall s: string | ArchivePath.ValidScopeId(s)
      ensures Safe(s)
    {
      ScopeIdIsPlain(s);
    }
  }

  lemma ScopeIdIsPlain(s: string)
    requires ArchivePath.ValidScopeId(s)
    ensures Safe(s)
  {
    forall i | 0 <= i < |s|
      ensures !Forbidden(s[i])
    {
      assert i == 0 ==> ArchivePath.IsLowerOrDigit(s[0]);
    }
  }

  // ---- The printer as it writes ----

  lemma {:induction false} PrintSnoc(g: Grammar, doc: seq<Statement>, s: Statement)
    ensures Print(g, doc + [s]) == Print(g, doc) + g.print1(s)
  {
    if doc == [] {
      assert ([] + [s])[1..] == [];
    } else {
      assert (doc + [s])[1..] == doc[1..] + [s];
      PrintSnoc(g, doc[1..], s);
    }
  }

  /** The text of the list of quoted items, joined by commas. */
  method JoinQuoted(items: seq<string>) returns (out: string)
    ensures out == PrintItems(items)
  {
    out := "";
    for i := 0 to |items|
      invariant PrintItems(items) == if i == 0 then PrintItems(items) else out + PrintRest(items[i..])
      invariant i == 0 ==> out == ""
    {
      assert items[i..][1..] == items[i + 1..];
      if i > 0 {
        assert PrintRest(items[i..]) == ", " + Quote(items[i]) + PrintRest(items[i + 1..]);
        out := out + (", " + Quote(items[i]));
      } else {
        out := Quote(items[0]);
      }
    }
    if |items| > 0 {
      assert items[|items|..] == [];
    }
  }

  method PushPair(before: string, ghost doc: seq<Statement>, key: Key, value: string, ghost v: Value)
    returns (out: string, ghost grown: seq<Statement>)
    requires before == Print(ManifestGrammar(), doc) && value == PrintValue(v)
    ensures grown == doc + [Pair(key, v)] && out == Print(ManifestGrammar(), grown)
  {
    PrintSnoc(ManifestGrammar(), doc, Pair(key, v));
    grown := doc + [Pair(key, v)];
    out := before + (KeyName(key) + " = " + value + "\n");
  }

  method PushHeader(before: string, ghost doc: seq<Statement>, table: Table) returns (out: string, ghost grown: seq<Statement>)
    requires before == Print(ManifestGrammar(), doc)
    ensures grown == doc + [Header(table)] && out == Print(ManifestGrammar(), grown)
  {
    PrintSnoc(ManifestGrammar(), doc, Header(table));
    grown := doc + [Header(table)];
    out := before + ("\n" + PrintTable(table));
  }

  method PushOptional(before: string, ghost doc: seq<Statement>, key: Key, text: Option<string>)
    returns (out: string, ghost grown: seq<Statement>)
    requires before == Print(ManifestGrammar(), doc)
    ensures grown == doc + OptionalText(key, text) && out == Print(ManifestGrammar(), grown)
  {
    out, grown := before, doc;
    if text.Some? {
      out, grown := PushPair(before, doc, key, Quote(text.value), Str(text.value));
    }
  }

  method PushTargets(before: string, ghost doc: seq<Statement>, table: Table, key: Key, items: seq<string>)
    returns (out: string, ghost grown: seq<Statement>)
    requires before == Print(ManifestGrammar(), doc)
    ensures grown == doc + TargetStatements(table, key, items) && out == Print(ManifestGrammar(), grown)
  {
    out, grown := before, doc;
    if |items| > 0 {
      var joined := JoinQuoted(items);
      out, grown := PushHeader(out, grown, table);
      out, grown := PushPair(out, grown, key, "[" + joined + "]", Array(items));
    }
  }

  method PushPlugins(before: string, ghost doc: seq<Statement>, plugins: seq<(string, bool)>)
    returns (out: string, ghost grown: seq<Statement>)
    requires before == Print(ManifestGrammar(), doc)
    ensures grown == doc + PluginStatements(plugins) && out == Print(ManifestGrammar(), grown)
  {
    out, grown := before, doc;
    for i := 0 to |plugins|
      invariant out == Print(ManifestGrammar(), grown)
      invariant doc + PluginStatements(plugins) == grown + PluginStatements(plugins[i..])
    {
      ghost var was := grown;
      PluginsNext(plugins, i, was);
      out, grown := PushHeader(out, grown, Plugin(plugins[i].0));
      out, grown := PushPair(out, grown, Required, if plugins[i].1 then "true" else "false", Bool(plugins[i].1));
    }
    assert grown + PluginStatements([]) == grown;
  }

  lemma PluginsNext(plugins: seq<(string, bool)>, i: nat, was: seq<Statement>)
    requires i < |plugins|
    ensures was + PluginStatements(plugins[i..]) ==
              was + [Header(Plugin(plugins[i].0))] + [Pair(Required, Bool(plugins[i].1))] + PluginStatements(plugins[i + 1..])
  {
    assert plugins[i..][1..] == plugins[i + 1..];
  }

  /** The printer's sequence of appends; `doc` follows along with the statements written so far. */
  method SerializePackageToml(m: Manifest) returns (out: string)
    ensures out == Serialize(m)
  {
    ghost var doc: seq<Statement> := [];
    out, doc := PushPair("", [], Id, Quote(m.id), Str(m.id));
    out, doc := PushOptional(out, doc, Name, m.name);
    out, doc := PushPair(out, doc, Version, Quote(m.version), Str(m.version));
    out, doc := PushOptional(out, doc, Author, m.author);
    out, doc := PushPair(out, doc, Revision, PrintNat(m.revision), Int(m.revision));
    out, doc := PushTargets(out, doc, Android, Packages, m.android);
    out, doc := PushTargets(out, doc, Web, UrlPrefixes, m.web);
    out, doc := PushPlugins(out, doc, m.plugins);
    assert [] + [Pair(Id, Str(m.id))] == [Pair(Id, Str(m.id))];
  }
}
