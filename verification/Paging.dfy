/** Two ways to page through a list: by the id of the last row seen, before an authorisation filter, and by offset. */
module Paging {
  import opened Bytes

  // ---- Run history ----

  const PAGE_SIZE := 30

  /** A stored run; `id` stands for its position in the text order of run ids. */
  datatype Run = Run(started: int, id: int, device: string, package: Option<string>, runner: string)

  /** Newest first: start time, then id. */
  predicate Later(a: Run, b: Run) { a.started > b.started || (a.started == b.started && a.id > b.id) }

  predicate NewestFirst(runs: seq<Run>) { forall i, j :: 0 <= i < j < |runs| ==> Later(runs[i], runs[j]) }

  ghost predicate UniqueIds(runs: seq<Run>) { forall i, j :: 0 <= i < j < |runs| ==> runs[i].id != runs[j].id }

  function Filter<T>(keep: T -> bool, items: seq<T>): seq<T> {
    if items == [] then [] else (if keep(items[0]) then [items[0]] else []) + Filter(keep, items[1..])
  }

  function Take(runs: seq<Run>, n: nat): seq<Run> { if |runs| <= n then runs else runs[..n] }

  function OnDevice(device: string): Run -> bool { (r: Run) => r.device == device }

  /** The row a cursor names, if the device still has it. */
  function CursorRow(runs: seq<Run>, device: string, id: int): Option<Run> {
    if runs == [] then None
    else if runs[0].id == id && runs[0].device == device then Some(runs[0])
    else CursorRow(runs[1..], device, id)
  }

  /** The rows a page may show: those of the device, and with a cursor only the ones that come after its row. A cursor
      without a row compares as unknown and selects nothing. */
  function Candidates(runs: seq<Run>, device: string, before: Option<int>): seq<Run> {
    match before
    case None => Filter(OnDevice(device), runs)
    case Some(id) =>
      match CursorRow(runs, device, id)
      case None => []
      case Some(row) => Filter((r: Run) => r.device == device && Later(row, r), runs)
  }

  function History(runs: seq<Run>, device: string, before: Option<int>): seq<Run> {
    Take(Candidates(runs, device, before), PAGE_SIZE)
  }

  lemma {:induction false} FilterIn<T>(keep: T -> bool, items: seq<T>, x: T)
    ensures x in Filter(keep, items) <==> x in items && keep(x)
  {
    if items != [] {
      FilterIn(keep, items[1..], x);
    }
  }

  lemma {:induction false} FilterAppend<T>(keep: T -> bool, a: seq<T>, b: seq<T>)
    ensures Filter(keep, a + b) == Filter(keep, a) + Filter(keep, b)
  {
    if a == [] {
      assert a + b == b;
    } else {
      var front := if keep(a[0]) then [a[0]] else [];
      assert (a + b)[1..] == a[1..] + b;
      assert Filter(keep, a + b) == front + Filter(keep, a[1..] + b);
      FilterAppend(keep, a[1..], b);
      assert Filter(keep, a) == front + Filter(keep, a[1..]);
    }
  }

  lemma {:induction false} FilterNone<T>(keep: T -> bool, items: seq<T>)
    requires forall i :: 0 <= i < |items| ==> !keep(items[i])
    ensures Filter(keep, items) == []
  {
    if items != [] {
      FilterNone(keep, items[1..]);
    }
  }

  lemma {:induction false} FilterSame<T>(f: T -> bool, g: T -> bool, items: seq<T>)
    requires forall i :: 0 <= i < |items| ==> f(items[i]) == g(items[i])
    ensures Filter(f, items) == Filter(g, items)
  {
    if items != [] {
      FilterSame(f, g, items[1..]);
    }
  }

  lemma {:induction false} CursorRowAt(runs: seq<Run>, device: string, n: nat)
    requires n < |runs| && UniqueIds(runs) && runs[n].device == device
    ensures CursorRow(runs, device, runs[n].id) == Some(runs[n])
  {
    if n > 0 {
      CursorRowAt(runs[1..], device, n - 1);
    }
  }

  /** A cursor at a row of the device selects exactly the device's rows behind it. */
  lemma CandidatesBehind(runs: seq<Run>, device: string, n: nat)
    requires n < |runs| && NewestFirst(runs) && UniqueIds(runs) && runs[n].device == device
    ensures Candidates(runs, device, Some(runs[n].id)) == Filter(OnDevice(device), runs[n + 1..])
  {
    var keep := (r: Run) => r.device == device && Later(runs[n], r);
    var front, rest := runs[..n + 1], runs[n + 1..];
    CursorRowAt(runs, device, n);
    assert runs == front + rest;
    forall i | 0 <= i < |front|
      ensures !keep(front[i])
    {
      assert front[i] == runs[i] && (i == n || Later(runs[i], runs[n]));
    }
    forall i | 0 <= i < |rest|
      ensures keep(rest[i]) == OnDevice(device)(rest[i])
    {
      assert rest[i] == runs[n + 1 + i] && Later(runs[n], runs[n + 1 + i]);
    }
    FilterAppend(keep, front, rest);
    FilterNone(keep, front);
    FilterSame(keep, OnDevice(device), rest);
  }

  /** Which rows those are. */
  lemma CandidatesAre(runs: seq<Run>, device: string, cursor: Run, r: Run)
    requires NewestFirst(runs) && UniqueIds(runs) && cursor in runs && cursor.device == device
    ensures r in Candidates(runs, device, Some(cursor.id)) <==> r in runs && r.device == device && Later(cursor, r)
  {
    var n :| 0 <= n < |runs| && runs[n] == cursor;
    CandidatesBehind(runs, device, n);
    FilterIn(OnDevice(device), runs[n + 1..], r);
    assert r in runs[n + 1..] <==> r in runs && Later(cursor, r) by {
      if r in runs && Later(cursor, r) {
        var i :| 0 <= i < |runs| && runs[i] == r;
        assert i > n && runs[n + 1..][i - n - 1] == r;
      }
    }
  }

  lemma {:induction false} FilterKeepsOrder(keep: Run -> bool, runs: seq<Run>)
    requires NewestFirst(runs)
    ensures NewestFirst(Filter(keep, runs))
  {
    if runs != [] {
      var rest := Filter(keep, runs[1..]);
      FilterKeepsOrder(keep, runs[1..]);
      forall j | 0 <= j < |rest|
        ensures Later(runs[0], rest[j])
      {
        FilterIn(keep, runs[1..], rest[j]);
      }
    }
  }

  lemma FilterIs(keep: Run -> bool, runs: seq<Run>)
    requires NewestFirst(runs)
    ensures NewestFirst(Filter(keep, runs)) && forall r {:trigger r in Filter(keep, runs)} :: r in Filter(keep, runs) <==> r in runs && keep(r)
  {
    FilterKeepsOrder(keep, runs);
    forall r
      ensures r in Filter(keep, runs) <==> r in runs && keep(r)
    {
      FilterIn(keep, runs, r);
    }
  }

  /** A page holds the first 30 of the rows it may show, or all of them if they are fewer. */
  lemma HistoryIsPage(runs: seq<Run>, device: string, before: Option<int>)
    ensures var page, all := History(runs, device, before), Candidates(runs, device, before);
            page <= all && |page| <= 30 && (|page| < 30 ==> page == all)
  {}

  /** A page of ordered rows is those not after its last row. */
  lemma PageIs(rows: seq<Run>, size: nat, r: Run)
    requires NewestFirst(rows) && rows != [] && size > 0
    ensures var page := Take(rows, size);
            && NewestFirst(page) && page != []
            && var last := page[|page| - 1]; last in rows && (r in page <==> r in rows && (r == last || Later(r, last)))
  {
    var page := Take(rows, size);
    var last := page[|page| - 1];
    assert last == rows[|page| - 1];
    if r in rows && (r == last || Later(r, last)) {
      var i :| 0 <= i < |rows| && rows[i] == r;
      assert i < |page| && page[i] == r;
    }
    if r in page {
      var i :| 0 <= i < |page| && page[i] == r;
      assert rows[i] == r;
    }
  }

  lemma InRest(runs: seq<Run>, r: Run)
    requires NewestFirst(runs) && runs != []
    ensures r in runs[1..] <==> r in runs && r != runs[0]
  {
    if r in runs[1..] {
      var i :| 0 <= i < |runs| - 1 && runs[1..][i] == r;
      assert Later(runs[0], runs[i + 1]);
    }
  }

  lemma FirstIsIn(runs: seq<Run>)
    requires runs != []
    ensures runs[0] in runs
  {}

  lemma {:induction false} OrderedIsUnique(a: seq<Run>, b: seq<Run>)
    requires NewestFirst(a) && NewestFirst(b) && forall r :: r in a <==> r in b
    ensures a == b
  {
    if a == [] {
      if b != [] { FirstIsIn(b); }
    } else {
      assert a[0] in b && b[0] in a;
      assert a[0] == b[0];
      forall r
        ensures r in a[1..] <==> r in b[1..]
      {
        InRest(a, r);
        InRest(b, r);
      }
      OrderedIsUnique(a[1..], b[1..]);
    }
  }

  lemma OrderedAppend(a: seq<Run>, b: seq<Run>)
    requires NewestFirst(a) && NewestFirst(b) && forall x, y :: x in a && y in b ==> Later(x, y)
    ensures NewestFirst(a + b)
  {}

  // ---- Following the history while it changes ----

  /** What is stored at the client's request `k`. */
  function Stored(store: nat -> seq<Run>, k: nat): seq<Run> { store(k) }

  /** A run the client is meant to see: stored at the start and at every request so far. */
  ghost predicate Kept(store: nat -> seq<Run>, device: string, authorised: Run -> bool, requests: nat, r: Run) {
    r.device == device && authorised(r) && forall k :: 0 <= k < requests ==> r in Stored(store, k)
  }

  /** A run that is stored at the start, or older than one that is. */
  ghost predicate FromStart(store: nat -> seq<Run>, r: Run) {
    r in Stored(store, 0) || exists x :: x in Stored(store, 0) && Later(x, r)
  }

  ghost predicate StoredBefore(store: nat -> seq<Run>, requests: nat, r: Run) { exists k :: 0 <= k < requests && r in Stored(store, k) }

  /** A run the client may have been shown. */
  ghost predicate Shown(store: nat -> seq<Run>, device: string, authorised: Run -> bool, requests: nat, r: Run) {
    r.device == device && authorised(r) && StoredBefore(store, requests, r) && FromStart(store, r)
  }

  predicate UpTo(cursor: Run, r: Run) { r == cursor || Later(r, cursor) }

  /** The row a cursor names. */
  ghost predicate IsCursor(store: nat -> seq<Run>, all: seq<Run>, device: string, c: Run) {
    c in all && c.device == device && FromStart(store, c)
  }

  /** How far the client has come: it has seen, in order, what it may see down to the row of its cursor. */
  ghost predicate SeenTo(store: nat -> seq<Run>, all: seq<Run>, device: string, authorised: Run -> bool, requests: nat, seen: seq<Run>,
                         cursor: Option<Run>) {
    && NewestFirst(seen)
    && (if cursor == None then requests == 0 && seen == []
        else requests > 0 && IsCursor(store, all, device, cursor.value) && StoredBefore(store, requests, cursor.value))
    && (forall r {:trigger r in seen} :: r in seen ==> Shown(store, device, authorised, requests, r) && cursor.Some? && UpTo(cursor.value, r))
    && forall r {:trigger Kept(store, device, authorised, requests, r)} ::
         cursor.Some? && Kept(store, device, authorised, requests, r) && UpTo(cursor.value, r) ==> r in seen
  }

  /** Rows may come and go between the requests. `all` are those that are ever stored, and every state is in their order. */
  ghost predicate Evolves(store: nat -> seq<Run>, all: seq<Run>) {
    NewestFirst(all) && UniqueIds(all) && forall k: nat :: InOrder(store, all, k)
  }

  ghost predicate InOrder(store: nat -> seq<Run>, all: seq<Run>, k: nat) {
    NewestFirst(Stored(store, k)) && forall r {:trigger r in Stored(store, k)} :: r in Stored(store, k) ==> r in all
  }

  lemma StoredIsUnique(store: nat -> seq<Run>, all: seq<Run>, k: nat)
    requires Evolves(store, all)
    ensures UniqueIds(Stored(store, k))
  {
    var now := Stored(store, k);
    assert InOrder(store, all, k);
    forall i, j | 0 <= i < j < |now|
      ensures now[i].id != now[j].id
    {
      assert now[i] in now && now[j] in now && Later(now[i], now[j]);
      SameIdSameRow(all, now[i], now[j]);
    }
  }

  function IdOf(cursor: Option<Run>): Option<int> { if cursor == None then None else Some(cursor.value.id) }

  lemma CandidatesOrdered(runs: seq<Run>, device: string, before: Option<int>)
    requires NewestFirst(runs)
    ensures NewestFirst(Candidates(runs, device, before))
  {
    FilterKeepsOrder(OnDevice(device), runs);
    if before.Some? && CursorRow(runs, device, before.value).Some? {
      var row := CursorRow(runs, device, before.value).value;
      FilterKeepsOrder((r: Run) => r.device == device && Later(row, r), runs);
    }
  }

  /** What a request may show: the device's rows behind the cursor, and nothing if the cursor's row is gone. */
  lemma RequestShows(store: nat -> seq<Run>, all: seq<Run>, device: string, k: nat, cursor: Option<Run>, r: Run)
    requires Evolves(store, all) && (cursor.Some? ==> IsCursor(store, all, device, cursor.value))
    ensures r in Candidates(Stored(store, k), device, IdOf(cursor)) <==>
              && r in Stored(store, k) && r.device == device
              && (cursor.Some? ==> cursor.value in Stored(store, k) && Later(cursor.value, r))
  {
    var now := Stored(store, k);
    assert InOrder(store, all, k);
    StoredIsUnique(store, all, k);
    if cursor == None {
      FilterIn(OnDevice(device), now, r);
    } else if cursor.value in now {
      CandidatesAre(now, device, cursor.value, r);
    } else {
      forall n | 0 <= n < |now|
        ensures now[n].id != cursor.value.id
      {
        assert now[n] in now;
        SameIdSameRow(all, now[n], cursor.value);
      }
      NoCursorRow(now, device, cursor.value.id);
    }
  }

  lemma Compared(runs: seq<Run>, a: Run, b: Run)
    requires NewestFirst(runs) && a in runs && b in runs
    ensures a == b || Later(a, b) || Later(b, a)
  {
    var i :| 0 <= i < |runs| && runs[i] == a;
    var j :| 0 <= j < |runs| && runs[j] == b;
  }

  lemma SameIdSameRow(runs: seq<Run>, a: Run, b: Run)
    requires UniqueIds(runs) && b in runs && a != b
    ensures a in runs ==> a.id != b.id
  {
    if a in runs {
      var i :| 0 <= i < |runs| && runs[i] == a;
      var j :| 0 <= j < |runs| && runs[j] == b;
      assert i < j || j < i;
    }
  }

  /** The rows of a page that is not empty, and its last row. */
  lemma PageShows(store: nat -> seq<Run>, all: seq<Run>, device: string, k: nat, cursor: Option<Run>, r: Run)
    requires Evolves(store, all) && (if cursor == None then k == 0 else IsCursor(store, all, device, cursor.value))
    requires History(Stored(store, k), device, IdOf(cursor)) != []
    ensures var page := History(Stored(store, k), device, IdOf(cursor));
            var last := page[|page| - 1];
            && NewestFirst(page) && last in page
            && (r in page <==>
                  && r in Stored(store, k) && r.device == device && UpTo(last, r)
                  && (cursor.Some? ==> cursor.value in Stored(store, k) && Later(cursor.value, r)))
            && (r in page ==> r in all && FromStart(store, r))
  {
    assert InOrder(store, all, k);
    CandidatesOrdered(Stored(store, k), device, IdOf(cursor));
    PageIs(Candidates(Stored(store, k), device, IdOf(cursor)), PAGE_SIZE, r);
    RequestShows(store, all, device, k, cursor, r);
    var page := History(Stored(store, k), device, IdOf(cursor));
    RequestShows(store, all, device, k, cursor, page[|page| - 1]);
    if cursor.Some? && Later(cursor.value, r) {
      OlderIsFromStart(store, cursor.value, r);
    }
  }

  lemma OlderIsFromStart(store: nat -> seq<Run>, c: Run, r: Run)
    requires FromStart(store, c) && Later(c, r)
    ensures FromStart(store, r)
  {
    if c !in Stored(store, 0) {
      var x :| x in Stored(store, 0) && Later(x, c);
      assert Later(x, r);
    }
  }

  /** `page` holds the rows of the device from after the cursor up to and with `last`. */
  ghost predicate Between(now: seq<Run>, device: string, cursor: Option<Run>, last: Run, page: seq<Run>) {
    && NewestFirst(page) && last in page
    && forall r {:trigger r in page} ::
         r in page <==> r in now && r.device == device && UpTo(last, r) && (cursor.Some? ==> Later(cursor.value, r))
  }

  lemma PageIsBetween(store: nat -> seq<Run>, all: seq<Run>, device: string, k: nat, cursor: Option<Run>)
    requires Evolves(store, all) && (if cursor == None then k == 0 else IsCursor(store, all, device, cursor.value))
    requires History(Stored(store, k), device, IdOf(cursor)) != []
    ensures var page := History(Stored(store, k), device, IdOf(cursor));
            Between(Stored(store, k), device, cursor, page[|page| - 1], page) && forall r :: r in page ==> r in all && FromStart(store, r)
  {
    var page := History(Stored(store, k), device, IdOf(cursor));
    var last := page[|page| - 1];
    PageShows(store, all, device, k, cursor, last);
    forall r
      ensures r in page <==>
                r in Stored(store, k) && r.device == device && UpTo(last, r) && (cursor.Some? ==> Later(cursor.value, r))
      ensures r in page ==> r in all && FromStart(store, r)
    {
      PageShows(store, all, device, k, cursor, r);
    }
  }

  /** What is seen stays in order, and lies at or before the new cursor. */
  lemma SeenStaysInOrder(seen: seq<Run>, shown: seq<Run>, cursor: Option<Run>, last: Run)
    requires NewestFirst(seen) && NewestFirst(shown) && (cursor == None ==> seen == [])
    requires forall r {:trigger r in seen} :: r in seen ==> cursor.Some? && UpTo(cursor.value, r)
    requires forall r {:trigger r in shown} :: r in shown ==> UpTo(last, r) && (cursor.Some? ==> Later(cursor.value, r))
    requires cursor.Some? ==> Later(cursor.value, last)
    ensures NewestFirst(seen + shown) && forall r :: r in seen + shown ==> UpTo(last, r)
  {
    OrderedAppend(seen, shown);
  }

  lemma KeptIsSeen(store: nat -> seq<Run>, all: seq<Run>, device: string, authorised: Run -> bool, k: nat, seen: seq<Run>, cursor: Option<Run>,
                   last: Run, page: seq<Run>, r: Run)
    requires Evolves(store, all) && SeenTo(store, all, device, authorised, k, seen, cursor)
    requires Between(Stored(store, k), device, cursor, last, page)
    requires Kept(store, device, authorised, k + 1, r) && UpTo(last, r)
    ensures r in seen || r in page
  {
    if cursor.Some? {
      assert InOrder(store, all, 0) && Kept(store, device, authorised, k, r) && r in Stored(store, 0);
      Compared(all, cursor.value, r);
    }
  }

  lemma ShownLater(store: nat -> seq<Run>, device: string, authorised: Run -> bool, k: nat, r: Run)
    requires Shown(store, device, authorised, k, r) || (r.device == device && authorised(r) && r in Stored(store, k) && FromStart(store, r))
    ensures Shown(store, device, authorised, k + 1, r)
  {
    if StoredBefore(store, k, r) {
      var i :| 0 <= i < k && r in Stored(store, i);
    }
  }

  lemma SeenGrows(store: nat -> seq<Run>, all: seq<Run>, device: string, authorised: Run -> bool, k: nat, seen: seq<Run>,
                  cursor: Option<Run>, last: Run, page: seq<Run>, shown: seq<Run>)
    requires Evolves(store, all) && SeenTo(store, all, device, authorised, k, seen, cursor)
    requires Between(Stored(store, k), device, cursor, last, page) && forall r :: r in page ==> r in all && FromStart(store, r)
    requires NewestFirst(shown) && forall r {:trigger r in shown} :: r in shown <==> r in page && authorised(r)
    ensures SeenTo(store, all, device, authorised, k + 1, seen + shown, Some(last))
  {
    SeenStaysInOrder(seen, shown, cursor, last);
    assert StoredBefore(store, k + 1, last) by {
      assert last in Stored(store, k);
    }
    forall r | r in seen + shown
      ensures Shown(store, device, authorised, k + 1, r)
    {
      ShownLater(store, device, authorised, k, r);
    }
    forall r | Kept(store, device, authorised, k + 1, r) && UpTo(last, r)
      ensures r in seen + shown
    {
      KeptIsSeen(store, all, device, authorised, k, seen, cursor, last, page, r);
    }
  }

  /** A page that is not empty: its rows come after all that was seen, and its last row is the next cursor. */
  lemma PageSeen(store: nat -> seq<Run>, all: seq<Run>, device: string, authorised: Run -> bool, k: nat, seen: seq<Run>, cursor: Option<Run>)
    requires Evolves(store, all) && SeenTo(store, all, device, authorised, k, seen, cursor)
    requires History(Stored(store, k), device, IdOf(cursor)) != []
    ensures var page := History(Stored(store, k), device, IdOf(cursor));
            var last := page[|page| - 1];
            && last in all && (cursor.Some? ==> Later(cursor.value, last))
            && SeenTo(store, all, device, authorised, k + 1, seen + Filter(authorised, page), Some(last))
  {
    var page := History(Stored(store, k), device, IdOf(cursor));
    var last, shown := page[|page| - 1], Filter(authorised, page);
    PageIsBetween(store, all, device, k, cursor);
    FilterIs(authorised, page);
    SeenGrows(store, all, device, authorised, k, seen, cursor, last, page, shown);
  }

  /** An empty page: of what the client may see it has missed exactly what lies behind a cursor whose row is gone. */
  lemma NothingMore(store: nat -> seq<Run>, all: seq<Run>, device: string, authorised: Run -> bool, k: nat, seen: seq<Run>,
                    cursor: Option<Run>, r: Run)
    requires Evolves(store, all) && SeenTo(store, all, device, authorised, k, seen, cursor)
    requires History(Stored(store, k), device, IdOf(cursor)) == [] && Kept(store, device, authorised, k + 1, r)
    ensures r !in seen <==> cursor.Some? && cursor.value !in Stored(store, k) && Later(cursor.value, r)
  {
    RequestShows(store, all, device, k, cursor, r);
    assert Candidates(Stored(store, k), device, IdOf(cursor)) == [];
    assert Kept(store, device, authorised, k, r) && InOrder(store, all, 0) && r in Stored(store, 0);
    if cursor.Some? {
      Compared(all, cursor.value, r);
    }
  }

  lemma AllSeen(runs: seq<Run>, device: string, authorised: Run -> bool, seen: seq<Run>)
    requires NewestFirst(runs) && NewestFirst(seen)
    requires forall r :: r in seen <==> r in runs && r.device == device && authorised(r)
    ensures seen == Filter(authorised, Filter(OnDevice(device), runs))
  {
    var mine := Filter(OnDevice(device), runs);
    FilterKeepsOrder(OnDevice(device), runs);
    FilterKeepsOrder(authorised, mine);
    forall r
      ensures r in Filter(authorised, mine) <==> r in seen
    {
      FilterIn(authorised, mine, r);
      FilterIn(OnDevice(device), runs, r);
    }
    OrderedIsUnique(seen, Filter(authorised, mine));
  }

  ghost predicate NothingDeleted(store: nat -> seq<Run>) {
    forall k: nat, r {:trigger r in Stored(store, k)} :: r in Stored(store, 0) ==> r in Stored(store, k)
  }

  /** A run that comes before all of `runs`. */
  ghost predicate InFront(r: Run, runs: seq<Run>) { forall x :: x in runs ==> Later(r, x) }

  /** What is recorded between the requests started after everything that was stored at the start. */
  ghost predicate ArrivalsInFront(store: nat -> seq<Run>) {
    forall k: nat, r {:trigger r in Stored(store, k)} :: r in Stored(store, k) ==> r in Stored(store, 0) || InFront(r, Stored(store, 0))
  }

  lemma WasAtStart(store: nat -> seq<Run>, requests: nat, r: Run)
    requires ArrivalsInFront(store) && StoredBefore(store, requests, r) && FromStart(store, r)
    ensures r in Stored(store, 0)
  {
    var k :| 0 <= k < requests && r in Stored(store, k);
    NotInFront(store, r);
  }

  lemma NotInFront(store: nat -> seq<Run>, r: Run)
    requires FromStart(store, r)
    ensures r in Stored(store, 0) || !InFront(r, Stored(store, 0))
  {
    if r !in Stored(store, 0) {
      var x :| x in Stored(store, 0) && Later(x, r);
      assert !Later(r, x);
    }
  }

  lemma NothingGone(store: nat -> seq<Run>, all: seq<Run>, device: string, authorised: Run -> bool, requests: nat, seen: seq<Run>)
    requires Evolves(store, all) && NothingDeleted(store) && ArrivalsInFront(store)
    requires NewestFirst(seen) && forall r {:trigger r in seen} :: r in seen ==> Shown(store, device, authorised, requests, r)
    requires forall r :: r in Stored(store, 0) && Kept(store, device, authorised, requests, r) ==> r in seen
    ensures seen == Filter(authorised, Filter(OnDevice(device), Stored(store, 0)))
  {
    forall r
      ensures r in seen <==> r in Stored(store, 0) && r.device == device && authorised(r)
    {
      if r in seen {
        WasAtStart(store, requests, r);
      }
      if r in Stored(store, 0) && r.device == device && authorised(r) {
        assert Kept(store, device, authorised, requests, r);
      }
    }
    assert InOrder(store, all, 0);
    AllSeen(Stored(store, 0), device, authorised, seen);
  }

  /** `done` of all rows lie at or before the cursor. */
  ghost predicate Reached(store: nat -> seq<Run>, all: seq<Run>, device: string, authorised: Run -> bool, requests: nat, seen: seq<Run>,
                          cursor: Option<Run>, done: nat) {
    && SeenTo(store, all, device, authorised, requests, seen, cursor)
    && IsPlace(all, done, cursor)
  }

  ghost predicate IsPlace(all: seq<Run>, done: nat, cursor: Option<Run>) {
    done <= |all| && (if cursor == None then done == 0 else done > 0 && all[done - 1] == cursor.value)
  }

  lemma NextPlace(all: seq<Run>, done: nat, cursor: Option<Run>, last: Run) returns (next: nat)
    requires NewestFirst(all) && last in all && IsPlace(all, done, cursor) && (cursor.Some? ==> Later(cursor.value, last))
    ensures done < next && IsPlace(all, next, Some(last))
  {
    var n :| 0 <= n < |all| && all[n] == last;
    next := n + 1;
  }

  lemma Advanced(store: nat -> seq<Run>, all: seq<Run>, device: string, authorised: Run -> bool, k: nat, seen: seq<Run>,
                 cursor: Option<Run>, done: nat)
    returns (next: nat)
    requires Evolves(store, all) && Reached(store, all, device, authorised, k, seen, cursor, done)
    requires History(Stored(store, k), device, IdOf(cursor)) != []
    ensures var page := History(Stored(store, k), device, IdOf(cursor));
            && done < next <= |all|
            && Reached(store, all, device, authorised, k + 1, seen + Filter(authorised, page), Some(page[|page| - 1]), next)
  {
    var page := History(Stored(store, k), device, IdOf(cursor));
    PageSeen(store, all, device, authorised, k, seen, cursor);
    next := NextPlace(all, done, cursor, page[|page| - 1]);
  }

  /** What a client has seen in the end. It is in order, hence nothing twice; all of it was stored at some request, and was
      stored at the start or is older than a run that was. Of the runs it may see that stay stored it has missed exactly those
      behind a last cursor whose row is gone. When nothing is deleted and all arrivals are newer, it is exactly the authorised
      runs of the start. */
  ghost predicate Complete(store: nat -> seq<Run>, device: string, authorised: Run -> bool, requests: nat, seen: seq<Run>, cursor: Option<Run>) {
    && requests > 0 && NewestFirst(seen)
    && (forall r {:trigger r in seen} :: r in seen ==> Shown(store, device, authorised, requests, r))
    && (forall r {:trigger Kept(store, device, authorised, requests, r)} :: Kept(store, device, authorised, requests, r) ==>
          (r !in seen <==> cursor.Some? && cursor.value !in Stored(store, requests - 1) && Later(cursor.value, r)))
    && (NothingDeleted(store) && ArrivalsInFront(store) ==>
          seen == Filter(authorised, Filter(OnDevice(device), Stored(store, 0))))
  }

  lemma Started(store: nat -> seq<Run>, all: seq<Run>, device: string, authorised: Run -> bool)
    ensures Reached(store, all, device, authorised, 0, [], None, 0)
  {}

  lemma Finished(store: nat -> seq<Run>, all: seq<Run>, device: string, authorised: Run -> bool, k: nat, seen: seq<Run>,
                 cursor: Option<Run>, done: nat)
    requires Evolves(store, all) && Reached(store, all, device, authorised, k, seen, cursor, done)
    requires History(Stored(store, k), device, IdOf(cursor)) == []
    ensures Complete(store, device, authorised, k + 1, seen, cursor)
  {
    forall r | Kept(store, device, authorised, k + 1, r)
      ensures r !in seen <==> cursor.Some? && cursor.value !in Stored(store, k) && Later(cursor.value, r)
    {
      NothingMore(store, all, device, authorised, k, seen, cursor, r);
    }
    forall r | r in seen
      ensures Shown(store, device, authorised, k + 1, r)
    {
      ShownLater(store, device, authorised, k, r);
    }
    if NothingDeleted(store) && ArrivalsInFront(store) {
      if cursor.Some? {
        WasAtStart(store, k, cursor.value);
      }
      NothingGone(store, all, device, authorised, k + 1, seen);
    }
  }

  /** A client following `next_before` until it is null, with `store(k)` the runs stored when it asks for page k: between
      the pages runs may be recorded, wherever they belong, and deleted, and whole pages may be hidden from it. */
  method FollowHistory(store: nat -> seq<Run>, ghost all: seq<Run>, device: string, authorised: Run -> bool)
    returns (seen: seq<Run>, requests: nat, cursor: Option<Run>)
    requires Evolves(store, all)
    ensures Complete(store, device, authorised, requests, seen, cursor)
  {
    seen, requests, cursor := [], 1, None;
    var page := History(store(0), device, None);
    ghost var done: nat := 0;
    Started(store, all, device, authorised);
    while page != []
      invariant requests > 0 && page == History(Stored(store, requests - 1), device, IdOf(cursor))
      invariant done <= |all|
      invariant Reached(store, all, device, authorised, requests - 1, seen, cursor, done)
      decreases |all| - done
    {
      done := Advanced(store, all, device, authorised, requests - 1, seen, cursor, done);
      var last := page[|page| - 1];
      seen := seen + Filter(authorised, page);
      cursor := Some(last);
      page := History(store(requests), device, Some(last.id));
      requests := requests + 1;
    }
    Finished(store, all, device, authorised, requests - 1, seen, cursor, done);
  }

  /** A page is the last one exactly when the cursor's row is gone from the device or nothing of the device lies behind it. */
  lemma LastPageIff(runs: seq<Run>, device: string, id: int)
    requires NewestFirst(runs) && UniqueIds(runs)
    ensures History(runs, device, Some(id)) == []
       <==> forall n, k :: 0 <= n < k < |runs| && runs[n].id == id && runs[n].device == device ==> runs[k].device != device
  {
    if n :| 0 <= n < |runs| && runs[n].id == id && runs[n].device == device {
      CandidatesBehind(runs, device, n);
      var rest := runs[n + 1..];
      if Filter(OnDevice(device), rest) == [] {
        forall k | n < k < |runs|
          ensures runs[k].device != device
        {
          FilterIn(OnDevice(device), rest, rest[k - n - 1]);
        }
      } else {
        FilterIn(OnDevice(device), rest, Filter(OnDevice(device), rest)[0]);
        var m :| 0 <= m < |rest| && rest[m].device == device;
        assert runs[n + 1 + m].device == device;
      }
    } else {
      NoCursorRow(runs, device, id);
    }
  }

  lemma {:induction false} NoCursorRow(runs: seq<Run>, device: string, id: int)
    requires forall n :: 0 <= n < |runs| ==> !(runs[n].id == id && runs[n].device == device)
    ensures CursorRow(runs, device, id) == None
  {
    if runs != [] {
      NoCursorRow(runs[1..], device, id);
    }
  }

  /** Retention may delete the row a client's cursor names; the client is then told the list has ended although older
      runs remain. */
  lemma PrunedCursorHidesOlderRuns()
    ensures var newer, older := Run(2, 2, "d", None, ""), Run(1, 1, "d", None, "");
            && NewestFirst([newer, older]) && UniqueIds([newer, older])
            && History([newer, older], "d", Some(newer.id)) == [older]
            && History([older], "d", Some(newer.id)) == []
  {
    var newer, older := Run(2, 2, "d", None, ""), Run(1, 1, "d", None, "");
    var all := [newer] + [older];
    CandidatesBehind(all, "d", 0);
    assert all[1..] == [older] && [older][1..] == [];
    assert Filter(OnDevice("d"), [older]) == [older];
    NoCursorRow([older], "d", 2);
    assert all == [newer, older];
  }

  // ---- Offset pages ----

  datatype Page<T> = Page(items: seq<T>, total: nat, nextOffset: Option<nat>, complete: bool)

  function PageAt<T>(items: seq<T>, offset: nat, limit: nat): Option<Page<T>> {
    if offset > |items| then None
    else
      var end := if offset + limit <= |items| then offset + limit else |items|;
      Some(Page(items[offset..end], |items|, if end < |items| then Some(end) else None, end == |items|))
  }

  /** A page holds up to `limit` items from its offset on, tells how many there are in all, and leads on until the last one
      has been shown; an offset beyond the end is refused. */
  lemma PageMeans<T>(items: seq<T>, offset: nat, limit: nat)
    ensures PageAt(items, offset, limit) == None <==> offset > |items|
    ensures PageAt(items, offset, limit).Some? ==>
              var p := PageAt(items, offset, limit).value;
              && p.items <= items[offset..] && |p.items| <= limit && (|p.items| < limit ==> offset + |p.items| == |items|)
              && p.total == |items| && (p.complete <==> offset + |p.items| == |items|)
              && p.nextOffset == if p.complete then None else Some(offset + |p.items|)
  {
    if offset <= |items| {
      var p := PageAt(items, offset, limit).value;
      assert p.items == items[offset..][..|p.items|];
    }
  }

  /** Following `next_offset` from the start concatenates to the whole list, for every limit of at least 1. */
  method FollowPages<T>(items: seq<T>, limit: nat) returns (seen: seq<T>)
    requires limit >= 1
    ensures seen == items
  {
    seen := [];
    var offset := 0;
    while true
      invariant offset <= |items| && seen == items[..offset]
      decreases |items| - offset
    {
      var page := PageAt(items, offset, limit).value;
      assert items[..offset] + page.items == items[..offset + |page.items|];
      seen := seen + page.items;
      if page.nextOffset == None {
        break;
      }
      offset := page.nextOffset.value;
    }
  }
}
