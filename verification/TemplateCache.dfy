/** The byte-budgeted, least-recently-used cache of decoded and prepared templates. */
module TemplateCache {
  import opened Bytes
  import opened Template

  const CAPACITY: nat := 128
  const MAX_BYTES: nat := 64 * 1024 * 1024

  datatype Key = Key(digest: seq<Byte>)
  type Dimensions = (nat, nat)

  /** A decoded image; its pixels are only looked at through `Env.grayAt`. */
  datatype Source = Source(width: nat, height: nat, data: seq<Byte>)

  /** The library operations the cache relies on, all deterministic. */
  datatype Env = Env(
    hash: seq<Byte> -> Key,
    decode: seq<Byte> -> Option<Source>,
    grayAt: (Source, Dimensions) -> Gray)
  {
    ghost predicate CollisionFree() {
      forall a, b :: hash(a) == hash(b) ==> a == b
    }

    /** Preparing a template without any cache. */
    function Prepare(source: Source, dims: Dimensions): Result<Prepared, PrepareError> {
      Build(grayAt(source, dims))
    }
  }

  datatype Entry = Entry(source: Source, prepared: map<Dimensions, Prepared>, memoryBytes: nat, lastUsed: nat)

  function SaturatingSub(a: nat, b: nat): nat { if a < b then 0 else a - b }
  function SourceBytes(s: Source): nat { s.width * s.height * 8 }
  function PreparedBytes(p: Prepared): nat { p.image.width * p.image.height }
  function EntryMemory(e: Entry): nat { e.memoryBytes }

  // ---- Sums over maps ----

  ghost function SumOf<K, V>(m: map<K, V>, weight: V -> nat): nat {
    if m == map[] then 0
    else
      var k :| k in m;
      weight(m[k]) + SumOf(m - {k}, weight)
  }

  lemma {:induction false} SumOfRemove<K, V>(m: map<K, V>, k: K, weight: V -> nat)
    requires k in m
    ensures SumOf(m, weight) == weight(m[k]) + SumOf(m - {k}, weight)
  {
    var j :| j in m && SumOf(m, weight) == weight(m[j]) + SumOf(m - {j}, weight);
    if j != k {
      SumOfRemove(m - {j}, k, weight);
      SumOfRemove(m - {k}, j, weight);
      assert m - {j} - {k} == m - {k} - {j};
    }
  }

  lemma SumOfInsert<K, V>(m: map<K, V>, k: K, v: V, weight: V -> nat)
    ensures k !in m ==> SumOf(m[k := v], weight) == SumOf(m, weight) + weight(v)
    ensures k in m ==> SumOf(m[k := v], weight) == SumOf(m, weight) - weight(m[k]) + weight(v)
  {
    SumOfRemove(m[k := v], k, weight);
    assert m[k := v] - {k} == m - {k};
    if k in m {
      SumOfRemove(m, k, weight);
    } else {
      assert m - {k} == m;
    }
  }

  // ---- What the cache keeps true ----

  ghost predicate EntryValid(env: Env, k: Key, e: Entry) {
    && (exists bytes :: env.hash(bytes) == k && env.decode(bytes) == Some(e.source))
    && e.memoryBytes == SourceBytes(e.source) + SumOf(e.prepared, PreparedBytes)
    && forall d :: d in e.prepared ==> env.Prepare(e.source, d) == Ok(e.prepared[d])
  }

  predicate Within(total: nat, count: nat) { total <= MAX_BYTES && count <= CAPACITY }

  ghost predicate Submap(kept: map<Key, Entry>, before: map<Key, Entry>) {
    kept.Keys <= before.Keys && forall k :: k in kept ==> kept[k] == before[k]
  }

  /** Nothing dropped from `before` was used later than `e`. */
  ghost predicate NoneDroppedAfter(before: map<Key, Entry>, kept: map<Key, Entry>, e: Entry) {
    forall k :: k in before && k !in kept ==> before[k].lastUsed <= e.lastUsed
  }

  ghost predicate OldestDropped(before: map<Key, Entry>, kept: map<Key, Entry>) {
    forall k :: k in kept ==> NoneDroppedAfter(before, kept, kept[k])
  }

  /** `last` was dropped last: nothing dropped was used later, and with it put back the entries are too many or too large. */
  ghost predicate TooMuchWith(before: map<Key, Entry>, kept: map<Key, Entry>, last: Key) {
    && last in before && last !in kept && NoneDroppedAfter(before, kept, before[last])
    && !Within(SumOf(kept, EntryMemory) + before[last].memoryBytes, |kept| + 1)
  }

  /** `kept` is what least-recently-used eviction leaves of `before`: it fits, everything dropped was used no
      later than anything kept, and eviction stopped as soon as it fitted. */
  ghost predicate EvictedTo(before: map<Key, Entry>, kept: map<Key, Entry>) {
    && Submap(kept, before) && OldestDropped(before, kept)
    && Within(SumOf(kept, EntryMemory), |kept|)
    && (kept != before ==> exists k :: TooMuchWith(before, kept, k))
  }

  ghost predicate Newest(entries: map<Key, Entry>, key: Key) {
    key in entries && forall k :: k in entries && k != key ==> entries[k].lastUsed < entries[key].lastUsed
  }

  lemma KeptIsLater(before: map<Key, Entry>, kept: map<Key, Entry>, dropped: Key, k: Key)
    requires EvictedTo(before, kept) && dropped in before && dropped !in kept && k in kept
    ensures k in before && k != dropped && before[dropped].lastUsed <= before[k].lastUsed
  {
    assert NoneDroppedAfter(before, kept, kept[k]);
  }

  lemma DroppedNewest(before: map<Key, Entry>, kept: map<Key, Entry>, key: Key)
    requires EvictedTo(before, kept) && Newest(before, key) && key !in kept
    ensures before[key].memoryBytes > MAX_BYTES
  {
    if k :| k in kept {
      KeptIsLater(before, kept, key, k);
      assert false;
    }
    assert kept == map[];
    var last :| TooMuchWith(before, kept, last);
    assert before[key].lastUsed <= before[last].lastUsed;
  }

  /** An entry used later than all others survives eviction if it fits on its own. */
  lemma NewestSurvives(before: map<Key, Entry>, kept: map<Key, Entry>, key: Key)
    requires EvictedTo(before, kept) && Newest(before, key)
    ensures before[key].memoryBytes <= MAX_BYTES ==> key in kept
  {
    if key !in kept {
      DroppedNewest(before, kept, key);
    }
  }

  lemma OldestDroppedNext(before: map<Key, Entry>, kept: map<Key, Entry>, oldest: Key)
    requires Submap(kept, before) && OldestDropped(before, kept) && oldest in kept
    requires forall k :: k in kept ==> kept[oldest].lastUsed <= kept[k].lastUsed
    ensures Submap(kept - {oldest}, before) && OldestDropped(before, kept - {oldest})
  {
    forall k | k in kept - {oldest}
      ensures NoneDroppedAfter(before, kept - {oldest}, kept[k])
    {
      assert NoneDroppedAfter(before, kept, kept[k]);
    }
  }

  lemma RemovalCounts(before: map<Key, Entry>, kept: map<Key, Entry>, oldest: Key)
    requires Submap(kept, before) && OldestDropped(before, kept) && oldest in kept
    ensures SumOf(kept, EntryMemory) == SumOf(kept - {oldest}, EntryMemory) + kept[oldest].memoryBytes
    ensures |kept| == |kept - {oldest}| + 1
    ensures !Within(SumOf(kept, EntryMemory), |kept|) ==> TooMuchWith(before, kept - {oldest}, oldest)
  {
    SumOfRemove(kept, oldest, EntryMemory);
    assert NoneDroppedAfter(before, kept, kept[oldest]);
  }

  /** The byte total is the sum over the entries, and every entry is what its content prepares to. */
  ghost predicate Accounted(env: Env, entries: map<Key, Entry>, total: nat) {
    && total == SumOf(entries, EntryMemory)
    && forall k :: k in entries ==> EntryValid(env, k, entries[k])
  }

  lemma AccountedUpdate(env: Env, entries: map<Key, Entry>, total: nat, key: Key, e: Entry)
    requires Accounted(env, entries, total) && EntryValid(env, key, e)
    ensures key in entries ==> entries[key].memoryBytes <= total
    ensures Accounted(env, entries[key := e],
              if key in entries then total - entries[key].memoryBytes + e.memoryBytes else total + e.memoryBytes)
  {
    SumOfInsert(entries, key, e, EntryMemory);
    if key in entries {
      SumOfRemove(entries, key, EntryMemory);
    }
  }

  lemma AccountedRemove(env: Env, entries: map<Key, Entry>, total: nat, key: Key)
    requires Accounted(env, entries, total) && key in entries
    ensures entries[key].memoryBytes <= total
    ensures Accounted(env, entries - {key}, total - entries[key].memoryBytes)
  {
    SumOfRemove(entries, key, EntryMemory);
  }

  /** Eviction of `before` under way; `last` is the entry dropped most recently. */
  ghost predicate Evicting(env: Env, before: map<Key, Entry>, kept: map<Key, Entry>, total: nat, last: Key) {
    && Accounted(env, kept, total)
    && Submap(kept, before) && OldestDropped(before, kept)
    && (kept != before ==> TooMuchWith(before, kept, last))
  }

  lemma EvictNext(env: Env, before: map<Key, Entry>, kept: map<Key, Entry>, total: nat, last: Key, oldest: Key)
    requires Evicting(env, before, kept, total, last) && !Within(total, |kept|)
    requires oldest in kept && forall k :: k in kept ==> kept[oldest].lastUsed <= kept[k].lastUsed
    ensures kept[oldest].memoryBytes <= total && |kept - {oldest}| < |kept|
    ensures Evicting(env, before, kept - {oldest}, total - kept[oldest].memoryBytes, oldest)
  {
    OldestDroppedNext(before, kept, oldest);
    RemovalCounts(before, kept, oldest);
    AccountedRemove(env, kept, total, oldest);
  }

  lemma EvictionDone(env: Env, before: map<Key, Entry>, kept: map<Key, Entry>, total: nat, last: Key)
    requires Evicting(env, before, kept, total, last) && Within(total, |kept|)
    ensures EvictedTo(before, kept)
  {}

  function WithPrepared(e: Entry, dims: Dimensions, p: Prepared): Entry {
    Entry(e.source, e.prepared[dims := p], e.memoryBytes + PreparedBytes(p), e.lastUsed)
  }

  /** The entries with a newly prepared variant, before eviction: its entry is put back if it was gone, and used `now`. */
  function PreparedIn(entries: map<Key, Entry>, key: Key, source: Source, dims: Dimensions, p: Prepared, now: nat): (r: map<Key, Entry>)
    ensures key in r
  {
    var e := if key in entries then entries[key] else Entry(source, map[], SourceBytes(source), 0);
    entries[key := WithPrepared(e, dims, p).(lastUsed := now)]
  }

  /** It makes no difference whether the entry is put back first. */
  lemma PutBackFirst(entries: map<Key, Entry>, key: Key, source: Source, dims: Dimensions)
    ensures forall p: Prepared, now: nat ::
              PreparedIn(if key in entries then entries else entries[key := Entry(source, map[], SourceBytes(source), 0)], key, source, dims, p, now)
                == PreparedIn(entries, key, source, dims, p, now)
  {}

  lemma UsedAfterwards(entries: map<Key, Entry>, key: Key, e: Entry)
    ensures forall now: nat :: entries[key := e][key := e.(lastUsed := now)] == entries[key := e.(lastUsed := now)]
  {}

  lemma PreparedAdded(env: Env, key: Key, e: Entry, dims: Dimensions, p: Prepared)
    requires EntryValid(env, key, e) && dims !in e.prepared && env.Prepare(e.source, dims) == Ok(p)
    ensures EntryValid(env, key, WithPrepared(e, dims, p))
  {
    SumOfInsert(e.prepared, dims, p, PreparedBytes);
  }

  class Cache {
    const env: Env
    var entries: map<Key, Entry>
    var totalBytes: nat
    var clock: nat

    ghost predicate Valid()
      reads this
    {
      env.CollisionFree() && Accounted(env, entries, totalBytes)
    }

    ghost predicate WithinLimits()
      reads this
    {
      Within(totalBytes, |entries|)
    }

    /** No entry carries a time the clock has not reached, as long as the clock has not wrapped. */
    ghost predicate InTime()
      reads this
    {
      forall k :: k in entries ==> entries[k].lastUsed <= clock
    }

    constructor (env: Env)
      requires env.CollisionFree()
      ensures Valid() && WithinLimits() && InTime() && this.env == env && entries == map[]
    {
      this.env := env;
      entries := map[];
      totalBytes := 0;
      clock := 0;
    }

    /** The 64-bit clock skips 0 when it wraps. */
    method Tick() returns (used: nat)
      modifies this`clock
      ensures used == clock && clock == if old(clock) + 1 >= U64_LIMIT then 1 else old(clock) + 1
    {
      clock := if clock + 1 >= U64_LIMIT then 1 else clock + 1;
      used := clock;
    }

    /** Marks an entry as used now; nothing else about it changes. */
    method Touch(key: Key)
      requires Valid() && key in entries
      modifies this`clock, this`entries
      ensures Valid()
      ensures clock == if old(clock) + 1 >= U64_LIMIT then 1 else old(clock) + 1
      ensures entries == old(entries)[key := old(entries)[key].(lastUsed := clock)]
      ensures old(InTime()) && old(clock) + 1 < U64_LIMIT ==> InTime() && Newest(entries, key)
    {
      var used := Tick();
      AccountedUpdate(env, entries, totalBytes, key, entries[key].(lastUsed := used));
      entries := entries[key := entries[key].(lastUsed := used)];
    }

    method Oldest() returns (oldest: Key)
      requires entries != map[]
      ensures oldest in entries && forall k :: k in entries ==> entries[oldest].lastUsed <= entries[k].lastUsed
    {
      oldest :| oldest in entries;
      var left := entries.Keys - {oldest};
      while left != {}
        invariant oldest in entries && left <= entries.Keys
        invariant forall k :: k in entries && k !in left ==> entries[oldest].lastUsed <= entries[k].lastUsed
      {
        var k :| k in left;
        if entries[k].lastUsed < entries[oldest].lastUsed {
          oldest := k;
        }
        left := left - {k};
      }
    }

    /** One turn of the eviction loop. */
    method DropOldest(ghost before: map<Key, Entry>, ghost last: Key) returns (ghost dropped: Key)
      requires Evicting(env, before, entries, totalBytes, last) && !WithinLimits()
      modifies this`entries, this`totalBytes
      ensures Evicting(env, before, entries, totalBytes, dropped) && |entries| < old(|entries|)
    {
      var oldest := Oldest();
      var removed := entries[oldest].memoryBytes;
      EvictNext(env, before, entries, totalBytes, last, oldest);
      entries := entries - {oldest};
      totalBytes := SaturatingSub(totalBytes, removed);
      dropped := oldest;
    }

    method Evict()
      requires Valid()
      modifies this`entries, this`totalBytes
      ensures Valid() && WithinLimits()
      ensures EvictedTo(old(entries), entries)
    {
      ghost var before := entries;
      ghost var last := Key([]);
      while totalBytes > MAX_BYTES || |entries| > CAPACITY
        invariant Evicting(env, before, entries, totalBytes, last)
        decreases |entries|
      {
        last := DropOldest(before, last);
      }
      EvictionDone(env, before, entries, totalBytes, last);
    }

    /** A hit: the entry is used now, and the limits stand or fall as before. */
    method Renew(key: Key)
      requires Valid() && key in entries
      modifies this`clock, this`entries
      ensures Valid() && (WithinLimits() <==> old(WithinLimits()))
      ensures entries == old(entries)[key := old(entries)[key].(lastUsed := clock)]
      ensures old(InTime()) && old(clock) + 1 < U64_LIMIT ==> InTime()
    {
      Touch(key);
      assert |entries| == |old(entries)| by {
        assert entries.Keys == old(entries).Keys;
        KeysCount(entries);
        KeysCount(old(entries));
      }
      SumOfInsert(old(entries), key, old(entries)[key].(lastUsed := clock), EntryMemory);
    }

    /** The end of a miss that filled `key`. */
    method EvictAround(ghost key: Key)
      requires Valid() && key in entries
      modifies this`entries, this`totalBytes
      ensures Valid() && WithinLimits()
      ensures EvictedTo(old(entries), entries)
      ensures old(InTime()) ==> InTime()
      ensures Newest(old(entries), key) && old(entries)[key].memoryBytes <= MAX_BYTES ==> key in entries
    {
      ghost var filled := entries;
      Evict();
      if Newest(filled, key) {
        NewestSurvives(filled, entries, key);
      }
    }

    /** Looks a decoded template up by content, decoding it on a miss. */
    method CachedSource(bytes: seq<Byte>) returns (r: Option<(Key, Source)>)
      requires Valid()
      modifies this`entries, this`totalBytes, this`clock
      ensures Valid()
      ensures r == match env.decode(bytes) { case None => None case Some(s) => Some((env.hash(bytes), s)) }
      ensures r == None ==> entries == old(entries)
      ensures r.Some? && r.value.0 in old(entries) ==>
                entries == old(entries)[r.value.0 := old(entries)[r.value.0].(lastUsed := clock)]
      ensures r.Some? && r.value.0 !in old(entries) ==>
                EvictedTo(old(entries)[r.value.0 := Entry(r.value.1, map[], SourceBytes(r.value.1), clock)], entries)
      ensures r.Some? ==> (WithinLimits() <==> r.value.0 !in old(entries) || old(WithinLimits()))
      ensures old(InTime()) && old(clock) + 1 < U64_LIMIT ==>
                InTime() && (r.Some? && SourceBytes(r.value.1) <= MAX_BYTES ==> r.value.0 in entries)
    {
      var key := env.hash(bytes);
      if key in entries {
        var source := entries[key].source;
        Renew(key);
        return Some((key, source));
      }
      var decoded := env.decode(bytes);
      if decoded == None {
        return None;
      }
      FillSource(key, decoded.value, bytes);
      EvictAround(key);
      return Some((key, decoded.value));
    }

    /** A new entry for a decoded template, used now. */
    method FillSource(key: Key, source: Source, ghost bytes: seq<Byte>)
      requires Valid() && key !in entries && env.hash(bytes) == key && env.decode(bytes) == Some(source)
      modifies this`entries, this`totalBytes, this`clock
      ensures Valid() && key in entries
      ensures entries == old(entries)[key := Entry(source, map[], SourceBytes(source), clock)]
      ensures old(InTime()) && old(clock) + 1 < U64_LIMIT ==> InTime() && Newest(entries, key)
    {
      var memoryBytes := SourceBytes(source);
      var used := Tick();
      InsertFresh(key, source, used, bytes);
      totalBytes := totalBytes + memoryBytes;
    }

    /** The entry of a source that was evicted, put back with time 0. */
    method PutBack(key: Key, source: Source, ghost bytes: seq<Byte>)
      requires Valid() && key !in entries && env.hash(bytes) == key && env.decode(bytes) == Some(source)
      modifies this`entries, this`totalBytes
      ensures Valid() && entries == old(entries)[key := Entry(source, map[], SourceBytes(source), 0)]
      ensures old(InTime()) ==> InTime()
    {
      InsertFresh(key, source, 0, bytes);
      totalBytes := totalBytes + SourceBytes(source);
    }

    /** Puts a source-only entry under a free key; the caller adds its bytes to the total. */
    method InsertFresh(key: Key, source: Source, used: nat, ghost bytes: seq<Byte>)
      requires Valid() && key !in entries && env.hash(bytes) == key && env.decode(bytes) == Some(source)
      modifies this`entries
      ensures entries == old(entries)[key := Entry(source, map[], SourceBytes(source), used)]
      ensures Accounted(env, entries, totalBytes + SourceBytes(source))
    {
      var e := Entry(source, map[], SourceBytes(source), used);
      assert EntryValid(env, key, e);
      AccountedUpdate(env, entries, totalBytes, key, e);
      entries := entries[key := e];
    }

    /** Looks the statistics of a template at one size up, preparing them on a miss. On an error an entry put back
        for the source stays, without eviction. `bytes` is the content the caller got `key` and `source` from. */
    method CachedPrepared(ghost bytes: seq<Byte>, key: Key, source: Source, dims: Dimensions)
      returns (r: Result<Prepared, PrepareError>)
      requires Valid() && key == env.hash(bytes) && env.decode(bytes) == Some(source)
      modifies this`entries, this`totalBytes, this`clock
      ensures Valid()
      ensures r == env.Prepare(source, dims)
      ensures r.Err? ==> entries == if key in old(entries) then old(entries)
                                    else old(entries)[key := Entry(source, map[], SourceBytes(source), 0)]
      ensures r.Ok? ==> (WithinLimits() <==> !old(key in entries && dims in entries[key].prepared) || old(WithinLimits()))
      ensures r.Ok? && old(key in entries && dims in entries[key].prepared) ==>
                entries == old(entries)[key := old(entries)[key].(lastUsed := clock)]
      ensures r.Ok? && !old(key in entries && dims in entries[key].prepared) ==>
                EvictedTo(PreparedIn(old(entries), key, source, dims, r.value, clock), entries)
      ensures old(InTime()) && old(clock) + 1 < U64_LIMIT ==>
                && InTime()
                && (r.Ok? && PreparedIn(old(entries), key, source, dims, r.value, clock)[key].memoryBytes <= MAX_BYTES ==> key in entries)
    {
      if key in entries && dims in entries[key].prepared {
        var prepared := entries[key].prepared[dims];
        SameContent(bytes, key);
        Renew(key);
        return Ok(prepared);
      }
      if key !in entries {
        PutBack(key, source, bytes);
      }
      SameContent(bytes, key);
      PutBackFirst(old(entries), key, source, dims);
      r := PrepareFilled(key, dims);
    }

    /** The preparation itself, for an entry that is there and lacks the size. */
    method PrepareFilled(key: Key, dims: Dimensions) returns (r: Result<Prepared, PrepareError>)
      requires Valid() && key in entries && dims !in entries[key].prepared
      modifies this`entries, this`totalBytes, this`clock
      ensures Valid()
      ensures r == env.Prepare(old(entries)[key].source, dims)
      ensures r.Err? ==> entries == old(entries) && clock == old(clock)
      ensures r.Ok? ==> WithinLimits() && EvictedTo(PreparedIn(old(entries), key, old(entries)[key].source, dims, r.value, clock), entries)
      ensures old(InTime()) && old(clock) + 1 < U64_LIMIT ==>
                && InTime()
                && (r.Ok? && old(entries)[key].memoryBytes + PreparedBytes(r.value) <= MAX_BYTES ==> key in entries)
    {
      var built := BuildPrepared(env.grayAt(entries[key].source, dims));
      if built.Err? {
        return built;
      }
      Fill(key, dims, built.value);
      EvictAround(key);
      return built;
    }

    /** Adds a variant and marks the entry as used now. */
    method Fill(key: Key, dims: Dimensions, prepared: Prepared)
      requires Valid() && key in entries && dims !in entries[key].prepared
      requires env.Prepare(entries[key].source, dims) == Ok(prepared)
      modifies this`entries, this`totalBytes, this`clock
      ensures Valid() && key in entries
      ensures entries == PreparedIn(old(entries), key, old(entries)[key].source, dims, prepared, clock)
      ensures entries[key].memoryBytes == old(entries)[key].memoryBytes + PreparedBytes(prepared)
      ensures old(InTime()) && old(clock) + 1 < U64_LIMIT ==> InTime() && Newest(entries, key)
    {
      AddPrepared(key, dims, prepared);
      UsedAfterwards(old(entries), key, WithPrepared(old(entries)[key], dims, prepared));
      Touch(key);
    }

    /** An entry under the hash of `bytes` holds what `bytes` decode to. */
    lemma SameContent(bytes: seq<Byte>, key: Key)
      requires Valid() && key in entries && key == env.hash(bytes)
      ensures env.decode(bytes) == Some(entries[key].source)
    {
      assert EntryValid(env, key, entries[key]);
    }

    method AddPrepared(key: Key, dims: Dimensions, prepared: Prepared)
      requires Valid() && key in entries && dims !in entries[key].prepared
      requires env.Prepare(entries[key].source, dims) == Ok(prepared)
      modifies this`entries, this`totalBytes
      ensures Valid()
      ensures entries == old(entries)[key := WithPrepared(old(entries)[key], dims, prepared)]
      ensures old(InTime()) ==> InTime()
    {
      PreparedAdded(env, key, entries[key], dims, prepared);
      AccountedUpdate(env, entries, totalBytes, key, WithPrepared(entries[key], dims, prepared));
      entries := entries[key := WithPrepared(entries[key], dims, prepared)];
      totalBytes := totalBytes + PreparedBytes(prepared);
    }

    /** One call. */
    method Perform(call: Call) returns (answer: Answer)
      requires Valid() && (call.PreparedOf? ==> env.decode(call.bytes).Some?)
      modifies this`entries, this`totalBytes, this`clock
      ensures Valid() && answer == FromScratch(env, call) && Transition(env, old(entries), call, entries)
    {
      match call {
        case SourceOf(bytes) =>
          var r := CachedSource(bytes);
          answer := Found(r);
        case PreparedOf(bytes, dims) =>
          var r := CachedPrepared(bytes, env.hash(bytes), env.decode(bytes).value, dims);
          answer := Statistics(r);
      }
    }

    /** Any sequence of calls, from any number of threads: the lock makes them a sequence. Every answer is the one
        computed from scratch, the accounting holds at the end, and `states` are the contents before, between and after
        the calls. */
    method Run(calls: seq<Call>) returns (answers: seq<Answer>, ghost states: seq<map<Key, Entry>>)
      requires Valid()
      requires forall i :: 0 <= i < |calls| && calls[i].PreparedOf? ==> env.decode(calls[i].bytes).Some?
      modifies this`entries, this`totalBytes, this`clock
      ensures Valid()
      ensures |answers| == |calls| && forall i :: 0 <= i < |calls| ==> answers[i] == FromScratch(env, calls[i])
      ensures IsTrace(env, states, calls) && states[0] == old(entries) && states[|calls|] == entries
      ensures old(WithinLimits()) && AllPrepare(env, calls) ==> AllFit(states)
    {
      answers, states := [], [entries];
      for i := 0 to |calls|
        invariant Valid()
        invariant |answers| == i && forall j :: 0 <= j < i ==> answers[j] == FromScratch(env, calls[j])
        invariant IsTrace(env, states, calls[..i]) && states[0] == old(entries) && states[i] == entries
      {
        var answer := Perform(calls[i]);
        answers := answers + [answer];
        TraceGrows(env, states, calls, i, entries);
        states := states + [entries];
      }
      assert calls[..|calls|] == calls;
      PreparationsKeepLimits(env, states, calls);
    }
  }

  lemma KeysCount<K, V>(m: map<K, V>)
    ensures |m| == |m.Keys|
  {}

  datatype Call = SourceOf(bytes: seq<Byte>) | PreparedOf(bytes: seq<Byte>, dims: Dimensions)
  datatype Answer = Found(source: Option<(Key, Source)>) | Statistics(prepared: Result<Prepared, PrepareError>) | Undecodable

  function FromScratch(env: Env, call: Call): Answer {
    match call
    case SourceOf(bytes) => Found(match env.decode(bytes) { case None => None case Some(s) => Some((env.hash(bytes), s)) })
    case PreparedOf(bytes, dims) =>
      match env.decode(bytes) { case None => Undecodable case Some(s) => Statistics(env.Prepare(s, dims)) }
  }

  // ---- The limits over whole runs ----

  ghost predicate Fits(entries: map<Key, Entry>) { Within(SumOf(entries, EntryMemory), |entries|) }

  predicate Succeeds(env: Env, call: Call) {
    match call
    case SourceOf(bytes) => env.decode(bytes).Some?
    case PreparedOf(bytes, dims) => env.decode(bytes).Some? && env.Prepare(env.decode(bytes).value, dims).Ok?
  }

  /** What the call asks for is not in the cache. */
  predicate Misses(env: Env, entries: map<Key, Entry>, call: Call) {
    match call
    case SourceOf(bytes) => env.hash(bytes) !in entries
    case PreparedOf(bytes, dims) => !(env.hash(bytes) in entries && dims in entries[env.hash(bytes)].prepared)
  }

  /** A preparation that fails after putting back the entry of its source. */
  predicate PutsBack(env: Env, entries: map<Key, Entry>, call: Call) {
    && call.PreparedOf? && env.decode(call.bytes).Some? && !Succeeds(env, call)
    && env.hash(call.bytes) !in entries
  }

  /** How a call moves the contents with respect to the limits. */
  ghost predicate Transition(env: Env, before: map<Key, Entry>, call: Call, after: map<Key, Entry>) {
    if Succeeds(env, call) then
      Fits(after) <==> Misses(env, before, call) || Fits(before)
    else if PutsBack(env, before, call) then
      var source := env.decode(call.bytes).value;
      after == before[env.hash(call.bytes) := Entry(source, map[], SourceBytes(source), 0)]
    else
      after == before
  }

  ghost predicate IsTrace(env: Env, states: seq<map<Key, Entry>>, calls: seq<Call>) {
    && |states| == |calls| + 1
    && forall i :: 0 <= i < |calls| ==> Transition(env, states[i], calls[i], states[i + 1])
  }

  /** Every preparation among the calls would succeed, which a caller can know beforehand. */
  predicate AllPrepare(env: Env, calls: seq<Call>) {
    forall i :: 0 <= i < |calls| && calls[i].PreparedOf? ==> Succeeds(env, calls[i])
  }

  /** Call `j` failed, put an entry back, and left too much; and no successful miss since has evicted. */
  ghost predicate Overfilled(env: Env, states: seq<map<Key, Entry>>, calls: seq<Call>, j: int, i: int)
    requires IsTrace(env, states, calls)
  {
    && 0 <= j < i <= |calls| && PutsBack(env, states[j], calls[j]) && !Fits(states[j + 1])
    && forall k :: j < k < i ==> !(Succeeds(env, calls[k]) && Misses(env, states[k], calls[k]))
  }

  lemma PuttingBackOnlyAdds(env: Env, before: map<Key, Entry>, call: Call, after: map<Key, Entry>)
    requires PutsBack(env, before, call) && Transition(env, before, call, after) && !Fits(before)
    ensures !Fits(after)
  {
    var source := env.decode(call.bytes).value;
    SumOfInsert(before, env.hash(call.bytes), Entry(source, map[], SourceBytes(source), 0), EntryMemory);
  }

  /** Starting within the limits, the cache is over them exactly when a failed preparation put an entry back, left too
      much, and no successful miss has followed. */
  lemma {:induction false} OverLimitsIff(env: Env, states: seq<map<Key, Entry>>, calls: seq<Call>, i: nat)
    requires IsTrace(env, states, calls) && Fits(states[0]) && i <= |calls|
    ensures !Fits(states[i]) <==> exists j :: Overfilled(env, states, calls, j, i)
  {
    if i > 0 {
      var before, call := states[i - 1], calls[i - 1];
      OverLimitsIff(env, states, calls, i - 1);
      assert Transition(env, before, call, states[i]);
      var evicts := Succeeds(env, call) && Misses(env, before, call);
      if !Fits(states[i]) {
        if Fits(before) {
          assert Overfilled(env, states, calls, i - 1, i);
        } else {
          var j :| Overfilled(env, states, calls, j, i - 1);
          assert Overfilled(env, states, calls, j, i);
        }
      }
      if j :| Overfilled(env, states, calls, j, i) {
        if j < i - 1 {
          assert Overfilled(env, states, calls, j, i - 1);
          if PutsBack(env, before, call) {
            PuttingBackOnlyAdds(env, before, call, states[i]);
          }
        }
      }
    }
  }

  ghost predicate AllFit(states: seq<map<Key, Entry>>) { forall i :: 0 <= i < |states| ==> Fits(states[i]) }

  /** If every preparation succeeds, the limits hold after every call. */
  lemma PreparationsKeepLimits(env: Env, states: seq<map<Key, Entry>>, calls: seq<Call>)
    requires IsTrace(env, states, calls)
    ensures Fits(states[0]) && AllPrepare(env, calls) ==> AllFit(states)
  {
    if Fits(states[0]) && AllPrepare(env, calls) {
      forall i | 0 <= i < |states|
        ensures Fits(states[i])
      {
        OverLimitsIff(env, states, calls, i);
      }
    }
  }

  lemma TraceGrows(env: Env, states: seq<map<Key, Entry>>, calls: seq<Call>, i: nat, next: map<Key, Entry>)
    requires i < |calls| && |states| == i + 1 && IsTrace(env, states, calls[..i]) && Transition(env, states[i], calls[i], next)
    ensures IsTrace(env, states + [next], calls[..i + 1])
  {
    assert forall j :: 0 <= j < i ==> calls[..i][j] == calls[..i + 1][j];
  }

  /** The limits can be exceeded by any template too large for the cache that cannot be prepared: evicted on its first
      lookup, it is put back by the preparation that fails, and stays through later successful lookups. */
  method LimitsCanBeExceeded(env: Env, bytes: seq<Byte>, source: Source, dims: Dimensions) returns (c: Cache)
    requires env.CollisionFree() && env.decode(bytes) == Some(source) && SourceBytes(source) > MAX_BYTES
    requires env.Prepare(source, dims).Err?
    ensures c.Valid() && !c.WithinLimits()
  {
    c := new Cache(env);
    var first := c.CachedSource(bytes);
    var key := env.hash(bytes);
    var second := c.CachedPrepared(bytes, key, source, dims);
    assert key in c.entries;
    assert EntryValid(env, key, c.entries[key]);
    c.SameContent(bytes, key);
    SumOfRemove(c.entries, key, EntryMemory);
    var third := c.CachedSource(bytes);
    assert third == first == Some((key, source));
  }
}
