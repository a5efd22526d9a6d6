/** The part of TOML v1.0.0 that the manifest printer emits. Reading undoes printing, on the documents TOML can carry. */
module Toml {
  import opened Bytes

  datatype Value = Str(text: string) | Int(n: nat) | Bool(b: bool) | Array(items: seq<string>)
  datatype Key = Id | Name | Version | Author | Revision | Packages | UrlPrefixes | Required | Unknown(name: string)
  datatype Table = Android | Web | Plugin(id: string)
  datatype Statement = Header(table: Table) | Pair(key: Key, value: Value)

  const I64_LIMIT: nat := 0x8000_0000_0000_0000

  type Parsed<T> = Option<(T, string)>

  // ---- Characters ----

  /** Control characters a basic string may not contain; a tab is allowed. */
  predicate Forbidden(c: char) { (c < ' ' && c != '\t') || c == 0x7F as char }

  predicate Safe(s: string) { forall i :: 0 <= i < |s| ==> !Forbidden(s[i]) }

  predicate IsDigit(c: char) { '0' <= c <= '9' }

  predicate IsBare(c: char) { 'a' <= c <= 'z' || 'A' <= c <= 'Z' || IsDigit(c) || c == '_' || c == '-' }

  // ---- Printing ----

  /** Only backslashes and double quotes are escaped. */
  function Escape(s: string): string {
    if s == "" then ""
    else if s[0] == '\\' || s[0] == '"' then ['\\', s[0]] + Escape(s[1..])
    else [s[0]] + Escape(s[1..])
  }

  function Quote(s: string): string { ['"'] + Escape(s) + ['"'] }

  function Digit(n: nat): (c: char)
    requires n < 10
    ensures IsDigit(c)
  {
    ('0' as int + n) as char
  }

  function PrintNat(n: nat): (s: string)
    ensures s != "" && forall i :: 0 <= i < |s| ==> IsDigit(s[i])
  {
    if n < 10 then [Digit(n)] else PrintNat(n / 10) + [Digit(n % 10)]
  }

  /** The quoted items after the first, each with its separator. */
  function PrintRest(items: seq<string>): string {
    if items == [] then "" else ", " + Quote(items[0]) + PrintRest(items[1..])
  }

  function PrintItems(items: seq<string>): string {
    if items == [] then "" else Quote(items[0]) + PrintRest(items[1..])
  }

  function PrintValue(v: Value): string {
    match v
    case Str(text) => Quote(text)
    case Int(n) => PrintNat(n)
    case Bool(b) => if b then "true" else "false"
    case Array(items) => "[" + PrintItems(items) + "]"
  }

  function KeyName(k: Key): string {
    match k
    case Id => "id"
    case Name => "name"
    case Version => "version"
    case Author => "author"
    case Revision => "revision"
    case Packages => "packages"
    case UrlPrefixes => "url_prefixes"
    case Required => "required"
    case Unknown(name) => name
  }

  function PrintTable(t: Table): string {
    match t
    case Android => "[targets.android]\n"
    case Web => "[targets.web]\n"
    case Plugin(id) => "[plugins." + Quote(id) + "]\n"
  }

  function PrintStatement(s: Statement): string {
    match s
    case Header(t) => "\n" + PrintTable(t)
    case Pair(k, v) => KeyName(k) + " = " + PrintValue(v) + "\n"
  }

  /** How one statement is printed, and how the statement at the front of a text is read. */
  datatype Grammar = Grammar(print1: Statement -> string, read1: string -> Parsed<Statement>)

  function Print(g: Grammar, doc: seq<Statement>): string {
    if doc == [] then "" else g.print1(doc[0]) + Print(g, doc[1..])
  }

  // ---- Reading ----

  function Strip(s: string, lit: string): Option<string> {
    if |lit| <= |s| && s[..|lit|] == lit then Some(s[|lit|..]) else None
  }

  /** The rest of a basic string after its opening quote. */
  function ReadString(s: string): (r: Parsed<string>)
    ensures r.Some? ==> |r.value.1| < |s|
  {
    if s == "" then None
    else if s[0] == '"' then Some(("", s[1..]))
    else if s[0] == '\\' then
      if |s| >= 2 && (s[1] == '\\' || s[1] == '"') then
        var r := ReadString(s[2..]);
        if r == None then None else Some(([s[1]] + r.value.0, r.value.1))
      else None
    else if Forbidden(s[0]) then None
    else
      var r := ReadString(s[1..]);
      if r == None then None else Some(([s[0]] + r.value.0, r.value.1))
  }

  function ReadQuoted(s: string): (r: Parsed<string>)
    ensures r.Some? ==> |r.value.1| < |s|
  {
    if s != "" && s[0] == '"' then ReadString(s[1..]) else None
  }

  /** The digits at the front of `s`, continuing the number `sofar`. */
  function ReadDigits(s: string, sofar: nat): (r: (nat, string))
    ensures |r.1| <= |s|
  {
    if s != "" && IsDigit(s[0]) then ReadDigits(s[1..], sofar * 10 + (s[0] as int - '0' as int)) else (sofar, s)
  }

  function ReadRest(s: string): (r: Parsed<seq<string>>)
    ensures r.Some? ==> |r.value.1| < |s|
    decreases |s|
  {
    if s != "" && s[0] == ']' then Some(([], s[1..]))
    else if |s| >= 2 && s[0] == ',' && s[1] == ' ' then
      var item := ReadQuoted(s[2..]);
      if item == None then None
      else
        var rest := ReadRest(item.value.1);
        if rest == None then None else Some(([item.value.0] + rest.value.0, rest.value.1))
    else None
  }

  /** An array of strings after its opening bracket. */
  function ReadItems(s: string): (r: Parsed<seq<string>>)
    ensures r.Some? ==> |r.value.1| < |s|
  {
    if s != "" && s[0] == ']' then Some(([], s[1..]))
    else
      var item := ReadQuoted(s);
      if item == None then None
      else
        var rest := ReadRest(item.value.1);
        if rest == None then None else Some(([item.value.0] + rest.value.0, rest.value.1))
  }

  /** Integers are signed 64-bit. */
  function ReadValue(s: string): (r: Parsed<Value>)
    ensures r.Some? ==> |r.value.1| < |s|
  {
    if s == "" then None
    else if s[0] == '"' then
      var r := ReadString(s[1..]);
      if r == None then None else Some((Str(r.value.0), r.value.1))
    else if s[0] == '[' then
      var r := ReadItems(s[1..]);
      if r == None then None else Some((Array(r.value.0), r.value.1))
    else if IsDigit(s[0]) then
      var (n, rest) := ReadDigits(s[1..], s[0] as int - '0' as int);
      if n < I64_LIMIT then Some((Int(n), rest)) else None
    else if Strip(s, "true").Some? then Some((Bool(true), Strip(s, "true").value))
    else if Strip(s, "false").Some? then Some((Bool(false), Strip(s, "false").value))
    else None
  }

  function ReadBare(s: string): (r: (string, string))
    ensures s == r.0 + r.1
  {
    if s != "" && IsBare(s[0]) then
      var (k, rest) := ReadBare(s[1..]);
      ([s[0]] + k, rest)
    else ("", s)
  }

  function KeyOf(name: string): Key {
    if name == "id" then Id
    else if name == "name" then Name
    else if name == "version" then Version
    else if name == "author" then Author
    else if name == "revision" then Revision
    else if name == "packages" then Packages
    else if name == "url_prefixes" then UrlPrefixes
    else if name == "required" then Required
    else Unknown(name)
  }

  /** A name is a key's only if the key is printed like it, and any other name is unknown. */
  lemma KeyIff(name: string, k: Key)
    ensures !k.Unknown? ==> (KeyOf(name) == k <==> name == KeyName(k))
    ensures KeyOf(name).Unknown? ==> KeyOf(name).name == name
  {
    assert |"id"| == 2 && |"name"| == 4 && |"version"| == 7 && |"author"| == 6;
    assert |"revision"| == 8 && |"packages"| == 8 && |"url_prefixes"| == 12 && |"required"| == 8;
    assert "revision"[2] == 'v' && "packages"[2] == 'c' && "required"[2] == 'q';
  }

  function ReadPair(s: string): (r: Parsed<Statement>)
    ensures r.Some? ==> |r.value.1| < |s|
  {
    var (name, afterName) := ReadBare(s);
    if name == "" then None
    else match Strip(afterName, " = ")
      case None => None
      case Some(afterEquals) =>
        match ReadValue(afterEquals)
        case None => None
        case Some((v, afterValue)) =>
          if afterValue != "" && afterValue[0] == '\n' then Some((Pair(KeyOf(name), v), afterValue[1..])) else None
  }

  function ReadTable(s: string): (r: Parsed<Statement>)
    ensures r.Some? ==> |r.value.1| < |s|
  {
    if Strip(s, "[targets.android]\n").Some? then Some((Header(Android), Strip(s, "[targets.android]\n").value))
    else if Strip(s, "[targets.web]\n").Some? then Some((Header(Web), Strip(s, "[targets.web]\n").value))
    else match Strip(s, "[plugins.")
      case None => None
      case Some(afterPrefix) =>
        match ReadQuoted(afterPrefix)
        case None => None
        case Some((id, afterId)) =>
          if Strip(afterId, "]\n").Some? then Some((Header(Plugin(id)), Strip(afterId, "]\n").value)) else None
  }

  function ReadStatement(s: string): (r: Parsed<Statement>)
    ensures r.Some? ==> |r.value.1| < |s|
  {
    if s != "" && s[0] == '[' then ReadTable(s) else ReadPair(s)
  }

  function ManifestGrammar(): Grammar { Grammar(PrintStatement, ReadStatement) }

  function SkipBlank(s: string): (r: string)
    ensures |r| <= |s|
  {
    if s != "" && s[0] == '\n' then SkipBlank(s[1..]) else s
  }

  /** All statements of a text. A reader that does not consume anything stops the loop. */
  function Read(g: Grammar, s: string): Option<seq<Statement>>
    decreases |s|
  {
    var line := SkipBlank(s);
    if line == "" then Some([])
    else
      var first := g.read1(line);
      if first == None || |first.value.1| >= |s| then None
      else
        var rest := Read(g, first.value.1);
        if rest == None then None else Some([first.value.0] + rest.value)
  }

  // ---- Reading undoes printing ----

  /** What TOML can carry of a value. */
  predicate Readable(v: Value) {
    match v
    case Str(text) => Safe(text)
    case Int(n) => n < I64_LIMIT
    case Bool(_) => true
    case Array(items) => forall i :: 0 <= i < |items| ==> Safe(items[i])
  }

  lemma {:induction false} ReadEscaped(s: string, rest: string)
    ensures ReadString(Escape(s) + ['"'] + rest) == if Safe(s) then Some((s, rest)) else None
  {
    var text := Escape(s) + ['"'] + rest;
    if s == "" {
      assert text[1..] == rest;
    } else {
      var tail := Escape(s[1..]) + ['"'] + rest;
      ReadEscaped(s[1..], rest);
      assert [s[0]] + s[1..] == s;
      assert Safe(s) <==> !Forbidden(s[0]) && Safe(s[1..]) by {
        if Safe(s[1..]) {
          assert forall i :: 0 < i < |s| ==> s[i] == s[1..][i - 1];
        }
      }
      if s[0] == '\\' || s[0] == '"' {
        assert text[2..] == tail;
      } else {
        assert text[1..] == tail;
      }
    }
  }

  lemma ReadQuote(s: string, rest: string)
    ensures ReadQuoted(Quote(s) + rest) == if Safe(s) then Some((s, rest)) else None
  {
    ReadEscaped(s, rest);
    assert (Quote(s) + rest)[1..] == Escape(s) + ['"'] + rest;
  }

  lemma {:induction false} ReadPrintedRest(items: seq<string>, rest: string)
    requires forall i :: 0 <= i < |items| ==> Safe(items[i])
    ensures ReadRest(PrintRest(items) + "]" + rest) == Some((items, rest))
  {
    var text := PrintRest(items) + "]" + rest;
    if items == [] {
      assert text[1..] == rest;
    } else {
      var tail := PrintRest(items[1..]) + "]" + rest;
      assert text[2..] == Quote(items[0]) + tail;
      assert [items[0]] + items[1..] == items;
      ReadQuote(items[0], tail);
      ReadPrintedRest(items[1..], rest);
    }
  }

  lemma ReadPrintedItems(items: seq<string>, rest: string)
    requires forall i :: 0 <= i < |items| ==> Safe(items[i])
    ensures ReadItems(PrintItems(items) + "]" + rest) == Some((items, rest))
  {
    var text := PrintItems(items) + "]" + rest;
    if items == [] {
      assert text[1..] == rest;
    } else {
      var tail := PrintRest(items[1..]) + "]" + rest;
      assert text == Quote(items[0]) + tail;
      assert [items[0]] + items[1..] == items;
      ReadQuote(items[0], tail);
      ReadPrintedRest(items[1..], rest);
    }
  }

  lemma {:induction false} ReadDigitsAppend(s: string, t: string, sofar: nat)
    requires forall i :: 0 <= i < |s| ==> IsDigit(s[i])
    ensures ReadDigits(s + t, sofar) == ReadDigits(t, ReadDigits(s, sofar).0)
  {
    if s == "" {
      assert s + t == t;
    } else {
      assert (s + t)[1..] == s[1..] + t;
      ReadDigitsAppend(s[1..], t, sofar * 10 + (s[0] as int - '0' as int));
    }
  }

  lemma {:induction false} ReadPrintedNat(n: nat)
    ensures ReadDigits(PrintNat(n), 0).0 == n
  {
    if n >= 10 {
      ReadPrintedNat(n / 10);
      ReadDigitsAppend(PrintNat(n / 10), [Digit(n % 10)], 0);
    }
  }

  lemma ReadPrintedInt(n: nat, rest: string)
    requires rest == "" || !IsDigit(rest[0])
    ensures var s := PrintNat(n) + rest;
            s != "" && IsDigit(s[0]) && ReadDigits(s[1..], s[0] as int - '0' as int) == (n, rest)
  {
    var s := PrintNat(n) + rest;
    ReadPrintedNat(n);
    ReadDigitsAppend(PrintNat(n), rest, 0);
    assert ReadDigits(s, 0) == ReadDigits(s[1..], s[0] as int - '0' as int);
  }

  lemma StripPrefix(lit: string, rest: string)
    ensures Strip(lit + rest, lit) == Some(rest)
  {}

  lemma ReadPrintedText(text: string, after: string)
    ensures ReadValue(Quote(text) + after) == if Safe(text) then Some((Str(text), after)) else None
  {
    ReadEscaped(text, after);
    assert (Quote(text) + after)[1..] == Escape(text) + ['"'] + after;
  }

  lemma ReadPrintedNumber(n: nat, after: string)
    requires after != "" && !IsDigit(after[0])
    ensures ReadValue(PrintNat(n) + after) == if n < I64_LIMIT then Some((Int(n), after)) else None
  {
    ReadPrintedInt(n, after);
  }

  lemma ReadPrintedBool(b: bool, after: string)
    ensures ReadValue((if b then "true" else "false") + after) == Some((Bool(b), after))
  {
    if b {
      StripPrefix("true", after);
    } else {
      StripPrefix("false", after);
      assert ("false" + after)[0] == 'f';
    }
  }

  lemma ReadPrintedArray(items: seq<string>, after: string)
    requires forall i :: 0 <= i < |items| ==> Safe(items[i])
    ensures ReadValue("[" + PrintItems(items) + "]" + after) == Some((Array(items), after))
  {
    var rest := PrintItems(items) + "]" + after;
    ReadPrintedItems(items, after);
    assert "[" + PrintItems(items) + "]" + after == ['['] + rest;
    assert (['['] + rest)[1..] == rest;
  }

  /** A printed string or integer value, or a readable one of the other kinds, followed by a line end. */
  lemma ReadPrintedValue(v: Value, after: string)
    requires v.Array? ==> Readable(v)
    requires after != "" && after[0] == '\n'
    ensures ReadValue(PrintValue(v) + after) == if Readable(v) then Some((v, after)) else None
  {
    match v
    case Str(text) => ReadPrintedText(text, after);
    case Int(n) => ReadPrintedNumber(n, after);
    case Bool(b) => ReadPrintedBool(b, after);
    case Array(items) => ReadPrintedArray(items, after);
  }

  predicate Known(k: Key) { !k.Unknown? }

  lemma KeyNames(k: Key)
    requires Known(k)
    ensures KeyOf(KeyName(k)) == k && KeyName(k) != ""
    ensures forall i :: 0 <= i < |KeyName(k)| ==> IsBare(KeyName(k)[i])
  {}

  lemma {:induction false} ReadBareName(name: string, rest: string)
    requires forall i :: 0 <= i < |name| ==> IsBare(name[i])
    requires rest != "" && !IsBare(rest[0])
    ensures ReadBare(name + rest) == (name, rest)
  {
    if name == "" {
      assert name + rest == rest;
    } else {
      assert (name + rest)[1..] == name[1..] + rest;
      ReadBareName(name[1..], rest);
      assert [name[0]] + name[1..] == name;
    }
  }

  lemma ReadPairText(name: string, key: Key, v: Value, rest: string)
    requires name != "" && KeyOf(name) == key && forall i :: 0 <= i < |name| ==> IsBare(name[i])
    requires v.Array? ==> Readable(v)
    ensures ReadPair(name + (" = " + (PrintValue(v) + ("\n" + rest)))) ==
              if Readable(v) then Some((Pair(key, v), rest)) else None
  {
    var afterValue := "\n" + rest;
    var afterEquals := PrintValue(v) + afterValue;
    ReadBareName(name, " = " + afterEquals);
    StripPrefix(" = ", afterEquals);
    ReadPrintedValue(v, afterValue);
    assert afterValue[1..] == rest;
  }

  lemma PairText(name: string, value: string, rest: string)
    ensures name + " = " + value + "\n" + rest == name + (" = " + (value + ("\n" + rest)))
  {}

  lemma ReadPrintedPair(k: Key, v: Value, rest: string)
    requires Known(k) && (v.Array? ==> Readable(v))
    ensures ReadPair(PrintStatement(Pair(k, v)) + rest) == if Readable(v) then Some((Pair(k, v), rest)) else None
  {
    KeyNames(k);
    PairText(KeyName(k), PrintValue(v), rest);
    ReadPairText(KeyName(k), k, v, rest);
  }

  lemma ReadPrintedTable(t: Table, rest: string)
    requires t.Plugin? ==> Safe(t.id)
    ensures ReadTable(PrintTable(t) + rest) == Some((Header(t), rest))
  {
    match t
    case Android => StripPrefix("[targets.android]\n", rest);
    case Web =>
      StripPrefix("[targets.web]\n", rest);
      assert ("[targets.web]\n" + rest)[9] == 'w' && "[targets.android]\n"[9] == 'a';
      NoPrefix("[targets.web]\n" + rest, "[targets.android]\n", 9);
    case Plugin(id) =>
      var afterPrefix := Quote(id) + ("]\n" + rest);
      var s := "[plugins." + afterPrefix;
      assert PrintTable(t) + rest == s;
      assert s[1] == 'p';
      NoPrefix(s, "[targets.android]\n", 1);
      NoPrefix(s, "[targets.web]\n", 1);
      StripPrefix("[plugins.", afterPrefix);
      ReadQuote(id, "]\n" + rest);
      StripPrefix("]\n", rest);
  }

  lemma NoPrefix(s: string, lit: string, i: nat)
    requires i < |s| && i < |lit| && s[i] != lit[i]
    ensures Strip(s, lit) == None
  {
    if |lit| <= |s| {
      assert s[..|lit|][i] == s[i];
    }
  }

  /** Everything but the text of strings and the size of integers is as the manifest printer makes it. */
  predicate WellShaped(s: Statement) {
    match s
    case Header(t) => t.Plugin? ==> Safe(t.id)
    case Pair(k, v) => Known(k) && (v.Array? ==> Readable(v))
  }

  predicate ReadableStatement(s: Statement) { s.Pair? ==> Readable(s.value) }

  /** `g` reads back one printed statement in front of any text, or refuses it when it is not readable. */
  ghost predicate ReadsBackBefore(g: Grammar, s: Statement, rest: string) {
    var line := SkipBlank(g.print1(s) + rest);
    && line != "" && |rest| < |g.print1(s) + rest|
    && g.read1(line) == if ReadableStatement(s) then Some((s, rest)) else None
  }

  ghost predicate ReadsBack(g: Grammar, s: Statement) {
    forall rest :: ReadsBackBefore(g, s, rest)
  }

  lemma {:induction false} ReadPrintedBy(g: Grammar, doc: seq<Statement>)
    requires forall i :: 0 <= i < |doc| ==> ReadsBack(g, doc[i])
    ensures Read(g, Print(g, doc)) == if forall i :: 0 <= i < |doc| ==> ReadableStatement(doc[i]) then Some(doc) else None
  {
    if doc != [] {
      ReadPrintedBy(g, doc[1..]);
      assert ReadsBackBefore(g, doc[0], Print(g, doc[1..]));
      assert doc == [doc[0]] + doc[1..];
      if forall i :: 0 <= i < |doc[1..]| ==> ReadableStatement(doc[1..][i]) {
        assert forall i :: 0 < i < |doc| ==> doc[i] == doc[1..][i - 1];
      } else {
        var i :| 0 <= i < |doc[1..]| && !ReadableStatement(doc[1..][i]);
        assert !ReadableStatement(doc[i + 1]);
      }
    }
  }

  lemma HeaderReadsBack(t: Table, rest: string)
    requires t.Plugin? ==> Safe(t.id)
    ensures ReadsBackBefore(ManifestGrammar(), Header(t), rest)
  {
    var text, line := "\n" + PrintTable(t) + rest, PrintTable(t) + rest;
    assert text[0] == '\n' && text[1..] == line;
    TableBracket(t, rest);
    ReadPrintedTable(t, rest);
  }

  lemma TableBracket(t: Table, rest: string)
    ensures PrintTable(t) + rest != "" && (PrintTable(t) + rest)[0] == '['
  {}

  lemma PairReadsBack(k: Key, v: Value, rest: string)
    requires Known(k) && (v.Array? ==> Readable(v))
    ensures ReadsBackBefore(ManifestGrammar(), Pair(k, v), rest)
  {
    var text := PrintStatement(Pair(k, v)) + rest;
    KeyNames(k);
    PairText(KeyName(k), PrintValue(v), rest);
    assert IsBare(KeyName(k)[0]);
    assert text[0] == KeyName(k)[0];
    ReadPrintedPair(k, v, rest);
  }

  /** Reading a printed document gives it back exactly when every string in it is free of control characters that
      TOML forbids and every integer fits 64 signed bits; otherwise reading fails. */
  lemma ReadPrinted(doc: seq<Statement>)
    requires forall i :: 0 <= i < |doc| ==> WellShaped(doc[i])
    ensures var g := ManifestGrammar();
            Read(g, Print(g, doc)) == if forall i :: 0 <= i < |doc| ==> ReadableStatement(doc[i]) then Some(doc) else None
  {
    var g := ManifestGrammar();
    forall i, rest | 0 <= i < |doc|
      ensures ReadsBackBefore(g, doc[i], rest)
    {
      match doc[i]
      case Header(t) => HeaderReadsBack(t, rest);
      case Pair(k, v) => PairReadsBack(k, v, rest);
    }
    ReadPrintedBy(g, doc);
  }
}
