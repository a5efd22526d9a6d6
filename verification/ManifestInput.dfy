/** What a manifest keeps of the input it is built from, and which inputs build one. */
module ManifestInput {
  import opened Bytes
  import opened Manifest

  /** Which text a raw item stands for. */
  type Gives = (string, string) -> bool

  type Clean = string -> Result<string, ManifestError>

  // ---- Cleaned lists ----

  /** `item` comes from `raws[at]`, and from nothing before it. */
  ghost predicate FirstFrom(raws: seq<string>, gives: Gives, item: string, at: nat) {
    at < |raws| && gives(raws[at], item) && forall k :: 0 <= k < at ==> !gives(raws[k], item)
  }

  ghost predicate GivesSome(gives: Gives, raw: string, items: seq<string>) {
    exists i :: 0 <= i < |items| && gives(raw, items[i])
  }

  /** `items` are what the raws give, each once, in the order in which they are first given. */
  ghost predicate FirstOnes(raws: seq<string>, gives: Gives, items: seq<string>, at: seq<nat>) {
    && |at| == |items|
    && (forall i :: 0 <= i < |items| ==> FirstFrom(raws, gives, items[i], at[i]))
    && (forall i, j :: 0 <= i < j < |items| ==> at[i] < at[j])
    && forall k :: 0 <= k < |raws| ==> GivesSome(gives, raws[k], items)
  }

  function GivenBy(clean: Clean): Gives { (raw: string, item: string) => clean(raw) == Ok(item) }

  lemma GivesStill(gives: Gives, raw: string, items: seq<string>, more: seq<string>)
    requires GivesSome(gives, raw, items) && items <= more
    ensures GivesSome(gives, raw, more)
  {
    var i :| 0 <= i < |items| && gives(raw, items[i]);
    assert gives(raw, more[i]);
  }

  lemma FirstStill(raws: seq<string>, gives: Gives, item: string, at: nat, raw: string)
    requires FirstFrom(raws, gives, item, at)
    ensures FirstFrom(raws + [raw], gives, item, at)
  {
    assert forall k :: 0 <= k < |raws| ==> (raws + [raw])[k] == raws[k];
  }

  lemma NothingNew(raws: seq<string>, raw: string, clean: Clean, kept: seq<string>, at: seq<nat>)
    requires FirstOnes(raws, GivenBy(clean), kept, at) && clean(raw).Ok? && clean(raw).value in kept
    ensures FirstOnes(raws + [raw], GivenBy(clean), kept, at)
  {
    var gives, now := GivenBy(clean), raws + [raw];
    forall i | 0 <= i < |kept|
      ensures FirstFrom(now, gives, kept[i], at[i])
    {
      FirstStill(raws, gives, kept[i], at[i], raw);
    }
    var j :| 0 <= j < |kept| && kept[j] == clean(raw).value;
    assert gives(raw, kept[j]);
    forall k | 0 <= k < |now|
      ensures GivesSome(gives, now[k], kept)
    {
      assert now[k] == if k < |raws| then raws[k] else raw;
    }
  }

  /** An item that was not kept is given by none of the raws so far. */
  lemma NotGiven(raws: seq<string>, clean: Clean, kept: seq<string>, at: seq<nat>, item: string, k: nat)
    requires FirstOnes(raws, GivenBy(clean), kept, at) && item !in kept && k < |raws|
    ensures !GivenBy(clean)(raws[k], item)
  {
    assert GivesSome(GivenBy(clean), raws[k], kept);
  }

  lemma OneMore(raws: seq<string>, raw: string, clean: Clean, kept: seq<string>, at: seq<nat>, item: string)
    requires FirstOnes(raws, GivenBy(clean), kept, at) && clean(raw) == Ok(item) && item !in kept
    ensures FirstOnes(raws + [raw], GivenBy(clean), kept + [item], at + [|raws|])
  {
    var gives, now, more, places := GivenBy(clean), raws + [raw], kept + [item], at + [|raws|];
    forall i | 0 <= i < |more|
      ensures FirstFrom(now, gives, more[i], places[i])
    {
      if i < |kept| {
        FirstStill(raws, gives, kept[i], at[i], raw);
      } else {
        forall k | 0 <= k < |raws|
          ensures !gives(now[k], item)
        {
          NotGiven(raws, clean, kept, at, item, k);
        }
      }
    }
    forall k | 0 <= k < |now|
      ensures GivesSome(gives, now[k], more)
    {
      if k < |raws| {
        GivesStill(gives, raws[k], kept, more);
      } else {
        assert gives(now[k], more[|kept|]);
      }
    }
    forall i, j | 0 <= i < j < |more|
      ensures places[i] < places[j]
    {
      assert FirstFrom(raws, gives, kept[i], at[i]);
    }
  }

  /** What is kept of the first raws, and of the rest after them. */
  lemma {:induction false} CleanAllKeeps(raws: seq<string>, rest: seq<string>, clean: Clean, kept: seq<string>, at: seq<nat>) returns (all: seq<nat>)
    requires FirstOnes(raws, GivenBy(clean), kept, at) && CleanAll(rest, clean, kept).Ok?
    ensures FirstOnes(raws + rest, GivenBy(clean), CleanAll(rest, clean, kept).value, all)
    decreases |rest|
  {
    if rest == [] {
      assert raws + rest == raws;
      return at;
    }
    var raw, item := rest[0], clean(rest[0]).value;
    assert raws + [raw] + rest[1..] == raws + rest;
    if item in kept {
      NothingNew(raws, raw, clean, kept, at);
      all := CleanAllKeeps(raws + [raw], rest[1..], clean, kept, at);
    } else {
      OneMore(raws, raw, clean, kept, at, item);
      all := CleanAllKeeps(raws + [raw], rest[1..], clean, kept + [item], at + [|raws|]);
    }
  }

  lemma SameGiven(raws: seq<string>, g: Gives, h: Gives, items: seq<string>, at: seq<nat>)
    requires FirstOnes(raws, g, items, at) && forall k, item :: 0 <= k < |raws| ==> (g(raws[k], item) <==> h(raws[k], item))
    ensures FirstOnes(raws, h, items, at)
  {
    forall i | 0 <= i < |items|
      ensures FirstFrom(raws, h, items[i], at[i])
    {
      assert FirstFrom(raws, g, items[i], at[i]);
    }
    forall k | 0 <= k < |raws|
      ensures GivesSome(h, raws[k], items)
    {
      assert GivesSome(g, raws[k], items);
      var i :| 0 <= i < |items| && g(raws[k], items[i]);
      assert h(raws[k], items[i]);
    }
  }

  /** A list is cleaned exactly when each of its items is, and it is empty exactly if there were none. */
  lemma {:induction false} CleanAllIff(raws: seq<string>, clean: Clean, kept: seq<string>)
    ensures CleanAll(raws, clean, kept).Ok? <==> forall k :: 0 <= k < |raws| ==> clean(raws[k]).Ok?
    ensures CleanAll(raws, clean, kept).Ok? ==> (CleanAll(raws, clean, kept).value == [] <==> raws == [] && kept == [])
  {
    if raws != [] {
      assert forall k :: 0 < k < |raws| ==> raws[k] == raws[1..][k - 1];
      if clean(raws[0]).Ok? {
        var item := clean(raws[0]).value;
        CleanAllIff(raws[1..], clean, if item in kept then kept else kept + [item]);
      }
    }
  }

  // ---- Texts ----

  predicate Short(lib: Library, t: string, limit: nat) { lib.byteLength(t) <= limit }

  /** No control character (Unicode Cc). */
  predicate NoControl(t: string) { forall i :: 0 <= i < |t| ==> !(t[i] as int < 0x20 || 0x7F <= t[i] as int <= 0x9F) }

  predicate NoSlash(t: string) { '/' !in t && '\\' !in t }

  /** An optional text that is kept: absent if it was, and else the text without the white space around it. */
  ghost predicate TextKept(raw: Option<string>, t: Option<string>) {
    match raw
    case None => t == None
    case Some(r) => t.Some? && IsTrimOf(r, t.value)
  }

  /** An absent or blank version is 0.1.0. */
  ghost predicate VersionKept(raw: Option<string>, v: string) {
    if raw == None || IsTrimOf(raw.value, "") then v == "0.1.0" else IsTrimOf(raw.value, v)
  }

  ghost predicate GoodText(lib: Library, raw: Option<string>) {
    raw.Some? ==> exists t :: IsTrimOf(raw.value, t) && t != "" && Short(lib, t, 200)
  }

  ghost predicate GoodVersion(lib: Library, raw: Option<string>) {
    exists v :: VersionKept(raw, v) && NoControl(v) && NoSlash(v) && Short(lib, v, 64)
  }

  ghost predicate GoodTarget(lib: Library, raw: string) {
    exists t :: IsTrimOf(raw, t) && t != "" && NoControl(t) && NoSlash(t) && Short(lib, t, 200)
  }

  ghost predicate GoodPrefix(lib: Library, raw: string) {
    exists p :: IsTrimOf(raw, p) && NoControl(p) && Short(lib, p, 4096) && lib.canonicalUrl(p).Some?
  }

  ghost function TargetGives(): Gives { (raw: string, t: string) => IsTrimOf(raw, t) }

  ghost function PrefixGives(lib: Library): Gives {
    (raw: string, u: string) => exists p :: IsTrimOf(raw, p) && lib.canonicalUrl(p) == Some(u)
  }

  lemma Characters(t: string)
    ensures HasControl(t) <==> !NoControl(t)
    ensures HasIllegalCharacter(t) <==> !(NoControl(t) && NoSlash(t))
  {
    if '/' in t || '\\' in t {
      var i :| 0 <= i < |t| && (t[i] == '/' || t[i] == '\\');
    }
  }

  lemma TextMeans(raw: Option<string>, lib: Library)
    ensures CleanText(raw, lib).Ok? <==> GoodText(lib, raw)
    ensures CleanText(raw, lib).Ok? ==> TextKept(raw, CleanText(raw, lib).value)
  {
    if raw.Some? {
      TrimIff(raw.value, Trim(raw.value));
      if t :| IsTrimOf(raw.value, t) && t != "" && Short(lib, t, 200) {
        TrimIff(raw.value, t);
      }
    }
  }

  lemma VersionMeans(raw: Option<string>, v: string)
    ensures VersionKept(raw, v) <==> v == VersionText(raw)
  {
    if raw.Some? {
      TrimIff(raw.value, "");
      TrimIff(raw.value, v);
    }
  }

  lemma CleanVersionMeans(raw: Option<string>, lib: Library)
    ensures CleanVersion(raw, lib).Ok? <==> GoodVersion(lib, raw)
    ensures CleanVersion(raw, lib).Ok? ==> VersionKept(raw, CleanVersion(raw, lib).value)
  {
    var v := VersionText(raw);
    VersionMeans(raw, v);
    Characters(v);
    if w :| VersionKept(raw, w) && NoControl(w) && NoSlash(w) && Short(lib, w, 64) {
      VersionMeans(raw, w);
    }
  }

  lemma TargetMeans(raw: string, lib: Library, t: string)
    ensures CleanTarget(raw, lib).Ok? <==> GoodTarget(lib, raw)
    ensures CleanTarget(raw, lib).Ok? ==> (CleanTarget(raw, lib) == Ok(t) <==> TargetGives()(raw, t))
  {
    TrimIff(raw, Trim(raw));
    TrimIff(raw, t);
    Characters(Trim(raw));
    if u :| IsTrimOf(raw, u) && u != "" && NoControl(u) && NoSlash(u) && Short(lib, u, 200) {
      TrimIff(raw, u);
    }
  }

  lemma PrefixMeans(raw: string, lib: Library, u: string)
    ensures CleanPrefix(raw, lib).Ok? <==> GoodPrefix(lib, raw)
    ensures CleanPrefix(raw, lib).Ok? ==> (CleanPrefix(raw, lib) == Ok(u) <==> PrefixGives(lib)(raw, u))
  {
    TrimIff(raw, Trim(raw));
    Characters(Trim(raw));
    if p :| IsTrimOf(raw, p) && NoControl(p) && Short(lib, p, 4096) && lib.canonicalUrl(p).Some? {
      TrimIff(raw, p);
    }
    if p :| IsTrimOf(raw, p) && lib.canonicalUrl(p) == Some(u) {
      TrimIff(raw, p);
    }
  }

  // ---- The manifest ----

  /** The targets of a manifest are what its input gives. */
  ghost predicate ListKept(raws: seq<string>, gives: Gives, items: seq<string>) { exists at :: FirstOnes(raws, gives, items, at) }

  lemma TargetsKept(raws: seq<string>, lib: Library)
    requires CleanAll(raws, raw => CleanTarget(raw, lib), []).Ok?
    ensures ListKept(raws, TargetGives(), CleanAll(raws, raw => CleanTarget(raw, lib), []).value)
  {
    var clean: Clean := raw => CleanTarget(raw, lib);
    assert [] + raws == raws;
    CleanAllIff(raws, clean, []);
    var items := CleanAll(raws, clean, []).value;
    var at := CleanAllKeeps([], raws, clean, [], []);
    forall k, item | 0 <= k < |raws|
      ensures GivenBy(clean)(raws[k], item) <==> TargetGives()(raws[k], item)
    {
      assert clean(raws[k]).Ok?;
      TargetMeans(raws[k], lib, item);
    }
    SameGiven(raws, GivenBy(clean), TargetGives(), items, at);
  }

  lemma PrefixesKept(raws: seq<string>, lib: Library)
    requires CleanAll(raws, raw => CleanPrefix(raw, lib), []).Ok?
    ensures ListKept(raws, PrefixGives(lib), CleanAll(raws, raw => CleanPrefix(raw, lib), []).value)
  {
    var clean: Clean := raw => CleanPrefix(raw, lib);
    assert [] + raws == raws;
    CleanAllIff(raws, clean, []);
    var items := CleanAll(raws, clean, []).value;
    var at := CleanAllKeeps([], raws, clean, [], []);
    forall k, item | 0 <= k < |raws|
      ensures GivenBy(clean)(raws[k], item) <==> PrefixGives(lib)(raws[k], item)
    {
      assert clean(raws[k]).Ok?;
      PrefixMeans(raws[k], lib, item);
    }
    SameGiven(raws, GivenBy(clean), PrefixGives(lib), items, at);
  }

  /** A manifest keeps its input: ids, revision and plugins as they are, texts without the white space around them, and
      each target and normalised prefix once, in the order in which they are first given. */
  lemma InputIsKept(input: PackageInput, revision: nat, lib: Library, m: Manifest)
    requires IntoManifest(input, revision, lib) == Ok(m)
    ensures m.id == input.id && m.revision == revision && m.plugins == input.plugins
    ensures TextKept(input.name, m.name) && TextKept(input.author, m.author) && VersionKept(input.version, m.version)
    ensures ListKept(input.android, TargetGives(), m.android) && ListKept(input.web, PrefixGives(lib), m.web)
  {
    TextMeans(input.name, lib);
    TextMeans(input.author, lib);
    CleanVersionMeans(input.version, lib);
    TargetsKept(input.android, lib);
    PrefixesKept(input.web, lib);
  }

  /** An input builds a manifest exactly when its ids are valid, its texts are neither blank nor too long, its targets and
      prefixes are well formed, and it has at least one of them. */
  lemma BuildsIff(input: PackageInput, revision: nat, lib: Library)
    ensures IntoManifest(input, revision, lib).Ok? <==>
              && lib.scopeId(input.id) && (forall i :: 0 <= i < |input.plugins| ==> lib.scopeId(input.plugins[i].0))
              && GoodText(lib, input.name) && GoodText(lib, input.author) && GoodVersion(lib, input.version)
              && (forall i :: 0 <= i < |input.android| ==> GoodTarget(lib, input.android[i]))
              && (forall i :: 0 <= i < |input.web| ==> GoodPrefix(lib, input.web[i]))
              && (input.android != [] || input.web != [])
  {
    TextMeans(input.name, lib);
    TextMeans(input.author, lib);
    CleanVersionMeans(input.version, lib);
    CleanAllIff(input.android, raw => CleanTarget(raw, lib), []);
    CleanAllIff(input.web, raw => CleanPrefix(raw, lib), []);
    forall i | 0 <= i < |input.android|
      ensures CleanTarget(input.android[i], lib).Ok? <==> GoodTarget(lib, input.android[i])
    {
      TargetMeans(input.android[i], lib, "");
    }
    forall i | 0 <= i < |input.web|
      ensures CleanPrefix(input.web[i], lib).Ok? <==> GoodPrefix(lib, input.web[i])
    {
      PrefixMeans(input.web[i], lib, "");
    }
  }
}
