/** The stepwise schema migration engine and the two maintenance commands that report on it. */
module Migrations {
  import opened Bytes

  const MIN_READ_SCHEMA: int := 1
  const MAX_READ_SCHEMA: int := 8
  const TARGET_SCHEMA: int := 8

  /** One level; `apply` is the body of its transaction and None is its failure. */
  datatype Migration<!C> = Migration(from: int, to: int, apply: C -> Option<C>)

  datatype MigrateError =
    | InvalidRegistration(from: int) | DuplicateFrom(from: int) | DuplicateTo(to: int)
    | TooNew | BelowMinimum | MissingLevel(level: int) | FailedLevel(level: int)

  // ---- The registry ----

  function ProblemFrom<C>(regs: seq<Migration<C>>, froms: set<int>, tos: set<int>): Option<MigrateError> {
    if regs == [] then None
    else
      var m := regs[0];
      if m.to != m.from + 1 then Some(InvalidRegistration(m.from))
      else if m.from in froms then Some(DuplicateFrom(m.from))
      else if m.to in tos then Some(DuplicateTo(m.to))
      else ProblemFrom(regs[1..], froms + {m.from}, tos + {m.to})
  }

  predicate ValidRegistry<C>(regs: seq<Migration<C>>) {
    && (forall i :: 0 <= i < |regs| ==> regs[i].to == regs[i].from + 1)
    && forall i, j :: 0 <= i < j < |regs| ==> regs[i].from != regs[j].from
  }

  /** Validation accepts exactly the registries whose levels advance by one and start at distinct versions. */
  lemma {:induction false} ProblemIffInvalid<C>(regs: seq<Migration<C>>, froms: set<int>, tos: set<int>)
    requires forall t :: t in tos <==> t - 1 in froms
    ensures ProblemFrom(regs, froms, tos) == None <==>
              ValidRegistry(regs) && forall i :: 0 <= i < |regs| ==> regs[i].from !in froms
  {
    if regs != [] {
      var m, rest := regs[0], regs[1..];
      assert forall i :: 0 < i < |regs| ==> regs[i] == rest[i - 1];
      if m.to == m.from + 1 && m.from !in froms {
        assert m.to !in tos;
        ProblemIffInvalid(rest, froms + {m.from}, tos + {m.to});
        if ValidRegistry(rest) && forall i :: 0 <= i < |rest| ==> rest[i].from !in froms + {m.from} {
          forall i, j | 0 <= i < j < |regs|
            ensures regs[i].from != regs[j].from
          {
            assert regs[j] == rest[j - 1];
          }
        } else if ValidRegistry(regs) && forall i :: 0 <= i < |regs| ==> regs[i].from !in froms {
          assert forall i :: 0 <= i < |rest| ==> rest[i] == regs[i + 1];
          assert false;
        }
      }
    }
  }

  method ValidateRegistry<C>(regs: seq<Migration<C>>) returns (r: Option<MigrateError>)
    ensures r == ProblemFrom(regs, {}, {})
    ensures r == None <==> ValidRegistry(regs)
  {
    ProblemIffInvalid(regs, {}, {});
    var froms: set<int>, tos: set<int> := {}, {};
    for i := 0 to |regs|
      invariant ProblemFrom(regs, {}, {}) == ProblemFrom(regs[i..], froms, tos)
    {
      var m := regs[i];
      assert regs[i..][0] == m && regs[i..][1..] == regs[i + 1..];
      if m.to != m.from + 1 {
        return Some(InvalidRegistration(m.from));
      }
      if m.from in froms {
        return Some(DuplicateFrom(m.from));
      }
      froms := froms + {m.from};
      if m.to in tos {
        return Some(DuplicateTo(m.to));
      }
      tos := tos + {m.to};
    }
    return None;
  }

  /** The first level registered from `version`. */
  function Find<C>(regs: seq<Migration<C>>, version: int): Option<Migration<C>> {
    if regs == [] then None else if regs[0].from == version then Some(regs[0]) else Find(regs[1..], version)
  }

  function MaxTo<C>(regs: seq<Migration<C>>): int
    requires regs != []
  {
    if |regs| == 1 then regs[0].to
    else
      var rest := MaxTo(regs[1..]);
      if rest > regs[0].to then rest else regs[0].to
  }

  /** The highest version any level leads to. */
  lemma {:induction false} MaxToIsGreatest<C>(regs: seq<Migration<C>>)
    requires regs != []
    ensures (forall i :: 0 <= i < |regs| ==> regs[i].to <= MaxTo(regs)) && exists i :: 0 <= i < |regs| && regs[i].to == MaxTo(regs)
  {
    if |regs| == 1 {
      assert regs[0].to == MaxTo(regs);
    } else {
      var rest := regs[1..];
      MaxToIsGreatest(rest);
      var k :| 0 <= k < |rest| && rest[k].to == MaxTo(rest);
      assert regs[k + 1].to == MaxTo(rest) && regs[0].to <= MaxTo(regs);
      assert forall i :: 0 < i < |regs| ==> regs[i] == rest[i - 1];
    }
  }

  function TargetOf<C>(regs: seq<Migration<C>>): int { if regs == [] then TARGET_SCHEMA else MaxTo(regs) }

  /** The target is the highest version any level leads to, and the shipped one without any levels. */
  lemma TargetIsHighest<C>(regs: seq<Migration<C>>)
    ensures regs == [] ==> TargetOf(regs) == 8
    ensures regs != [] ==>
              && (forall i :: 0 <= i < |regs| ==> regs[i].to <= TargetOf(regs))
              && exists i :: 0 <= i < |regs| && regs[i].to == TargetOf(regs)
  {
    if regs != [] {
      MaxToIsGreatest(regs);
    }
  }

  // ---- What a run does ----

  /** The content and version of the database, the first error, and the levels committed. */
  datatype Outcome<C> = Outcome(content: C, version: int, error: Option<MigrateError>, committed: seq<int>)

  /** `commits` says at which levels the transaction itself can be opened and committed. */
  function Advance<C>(content: C, version: int, target: int, regs: seq<Migration<C>>, commits: int -> bool): Outcome<C>
    decreases target - version
  {
    if version >= target then Outcome(content, version, None, [])
    else match Find(regs, version)
      case None => Outcome(content, version, Some(MissingLevel(version)), [])
      case Some(m) =>
        if m.to != version + 1 then Outcome(content, version, Some(InvalidRegistration(m.from)), [])
        else match m.apply(content)
          case None => Outcome(content, version, Some(FailedLevel(version)), [])
          case Some(next) =>
            if !commits(version) then Outcome(content, version, Some(FailedLevel(version)), [])
            else
              var rest := Advance(next, version + 1, target, regs, commits);
              rest.(committed := [version] + rest.committed)
  }

  function Run<C>(content: C, version: int, regs: seq<Migration<C>>, commits: int -> bool): Outcome<C> {
    if ProblemFrom(regs, {}, {}).Some? then Outcome(content, version, ProblemFrom(regs, {}, {}), [])
    else if version > TargetOf(regs) then Outcome(content, version, Some(TooNew), [])
    else if version < MIN_READ_SCHEMA then Outcome(content, version, Some(BelowMinimum), [])
    else Advance(content, version, TargetOf(regs), regs, commits)
  }

  /** A database with its authoritative version mark. */
  class Connection<C> {
    var content: C
    var userVersion: int

    constructor (content: C, userVersion: int)
      ensures this.content == content && this.userVersion == userVersion
    {
      this.content := content;
      this.userVersion := userVersion;
    }

    /** One transaction: the body and the version mark are committed together or not at all. */
    method Transact(m: Migration<C>, commits: bool) returns (ok: bool)
      modifies this
      ensures ok <==> m.apply(old(content)).Some? && commits
      ensures ok ==> Some(content) == m.apply(old(content)) && userVersion == m.to
      ensures !ok ==> content == old(content) && userVersion == old(userVersion)
    {
      var before, versionBefore := content, userVersion;
      var next := m.apply(content);
      if next == None {
        return false;
      }
      content := next.value;
      userVersion := m.to;
      if !commits {
        content, userVersion := before, versionBefore;
        return false;
      }
      return true;
    }

    method RunMigrations(regs: seq<Migration<C>>, commits: int -> bool) returns (error: Option<MigrateError>, committed: seq<int>)
      modifies this
      ensures Outcome(content, userVersion, error, committed) == Run(old(content), old(userVersion), regs, commits)
    {
      var problem := ValidateRegistry(regs);
      if problem.Some? {
        return problem, [];
      }
      var target := TargetOf(regs);
      var version := userVersion;
      if version > target {
        return Some(TooNew), [];
      }
      if version < MIN_READ_SCHEMA {
        return Some(BelowMinimum), [];
      }
      error, committed := AdvanceTo(target, regs, commits);
    }

    /** One turn of the loop: the level of the current version, in its transaction. */
    method StepOnce(regs: seq<Migration<C>>, commits: int -> bool, ghost target: int) returns (error: Option<MigrateError>)
      requires userVersion < target
      modifies this
      ensures error.Some? ==> Advance(old(content), old(userVersion), target, regs, commits) == Outcome(content, userVersion, error, [])
      ensures error == None ==>
                && userVersion == old(userVersion) + 1
                && var rest := Advance(content, userVersion, target, regs, commits);
                   Advance(old(content), old(userVersion), target, regs, commits) == rest.(committed := [old(userVersion)] + rest.committed)
    {
      var version := userVersion;
      var migration := Find(regs, version);
      if migration == None {
        return Some(MissingLevel(version));
      }
      if migration.value.to != version + 1 {
        return Some(InvalidRegistration(migration.value.from));
      }
      var ok := Transact(migration.value, commits(version));
      return if ok then None else Some(FailedLevel(version));
    }

    method AdvanceTo(target: int, regs: seq<Migration<C>>, commits: int -> bool) returns (error: Option<MigrateError>, committed: seq<int>)
      requires userVersion <= target
      modifies this
      ensures Outcome(content, userVersion, error, committed) == Advance(old(content), old(userVersion), target, regs, commits)
    {
      committed := [];
      ghost var whole := Advance(content, userVersion, target, regs, commits);
      assert [] + whole.committed == whole.committed;
      var version := userVersion;
      while version < target
        invariant version <= target && userVersion == version
        invariant var rest := Advance(content, version, target, regs, commits);
                  whole == rest.(committed := committed + rest.committed)
        decreases target - version
      {
        error := StepOnce(regs, commits, target);
        if error.Some? {
          assert committed + [] == committed;
          return error, committed;
        }
        ghost var rest := Advance(content, userVersion, target, regs, commits).committed;
        assert committed + ([version] + rest) == committed + [version] + rest;
        committed := committed + [version];
        version := version + 1;
      }
      assert committed + [] == committed;
      return None, committed;
    }
  }

  // ---- Whole runs ----

  /** One level on its own: what it makes of the content, None when it is missing, misregistered or fails. */
  function Level<C>(regs: seq<Migration<C>>, commits: int -> bool, version: int, content: C): Option<C> {
    match Find(regs, version)
    case None => None
    case Some(m) => if m.to == version + 1 && commits(version) then m.apply(content) else None
  }

  /** The levels `from`, ..., `to - 1` applied in order. */
  function Levels<C>(regs: seq<Migration<C>>, commits: int -> bool, from: int, to: int, content: C): Option<C>
    decreases to - from
  {
    if from >= to then Some(content)
    else match Level(regs, commits, from, content)
      case None => None
      case Some(next) => Levels(regs, commits, from + 1, to, next)
  }

  /** The versions `from`, ..., `to - 1`. */
  function Interval(from: int, to: int): (r: seq<int>)
    ensures |r| == if from < to then to - from else 0
  {
    seq(if from < to then to - from else 0, i => from + i)
  }

  /** A run ends at some version `k` with exactly the levels below `k` applied in order: at the target without an
      error, or below it because level `k` is missing or fails. */
  lemma {:induction false} AdvanceOutcome<C>(content: C, version: int, target: int, regs: seq<Migration<C>>, commits: int -> bool)
    requires version <= target
    ensures var o := Advance(content, version, target, regs, commits);
            && version <= o.version <= target
            && Levels(regs, commits, version, o.version, content) == Some(o.content)
            && o.committed == Interval(version, o.version)
            && (o.error == None <==> o.version == target)
            && (o.error.Some? ==> Level(regs, commits, o.version, o.content) == None)
    decreases target - version
  {
    if version < target && Level(regs, commits, version, content).Some? {
      var next := Level(regs, commits, version, content).value;
      AdvanceOutcome(next, version + 1, target, regs, commits);
      var o := Advance(next, version + 1, target, regs, commits);
      assert [version] + Interval(version + 1, o.version) == Interval(version, o.version);
    }
  }

  /** The end of a run is determined: the target is reached exactly when every level in between can be applied. */
  lemma {:induction false} ReachesIff<C>(content: C, version: int, target: int, regs: seq<Migration<C>>, commits: int -> bool)
    requires version <= target
    ensures Advance(content, version, target, regs, commits).error == None <==> Levels(regs, commits, version, target, content).Some?
    decreases target - version
  {
    if version < target && Level(regs, commits, version, content).Some? {
      ReachesIff(Level(regs, commits, version, content).value, version + 1, target, regs, commits);
    }
  }

  /** Two registries agree on the levels `from`, ..., `to - 1`, and both can commit there. */
  ghost predicate Agree<C(!new)>(regs: seq<Migration<C>>, commits: int -> bool, regs': seq<Migration<C>>, commits': int -> bool, from: int, to: int) {
    forall v, c :: from <= v < to ==> Level(regs, commits, v, c) == Level(regs', commits', v, c)
  }

  /** Going on from a version that was reached is the same as running from the start. */
  lemma {:induction false} AdvanceFrom<C(!new)>(content: C, version: int, k: int, target: int, regs: seq<Migration<C>>, commits: int -> bool)
    requires version <= k <= target && Levels(regs, commits, version, k, content).Some?
    ensures var whole := Advance(content, version, target, regs, commits);
            var rest := Advance(Levels(regs, commits, version, k, content).value, k, target, regs, commits);
            whole == rest.(committed := Interval(version, k) + rest.committed)
    decreases k - version
  {
    var rest := Advance(Levels(regs, commits, version, k, content).value, k, target, regs, commits);
    if version == k {
      assert Interval(version, k) + rest.committed == rest.committed;
    } else {
      AdvanceFrom(Level(regs, commits, version, content).value, version + 1, k, target, regs, commits);
      assert [version] + (Interval(version + 1, k) + rest.committed) == Interval(version, k) + rest.committed;
    }
  }

  lemma {:induction false} LevelsAgree<C(!new)>(regs: seq<Migration<C>>, commits: int -> bool,
                                                regs': seq<Migration<C>>, commits': int -> bool, from: int, to: int, content: C)
    requires Agree(regs, commits, regs', commits', from, to)
    ensures Levels(regs, commits, from, to, content) == Levels(regs', commits', from, to, content)
    decreases if from < to then to - from else 0
  {
    if from < to && Level(regs, commits, from, content).Some? {
      LevelsAgree(regs, commits, regs', commits', from + 1, to, Level(regs, commits, from, content).value);
    }
  }

  /** Resuming: after a run that failed at `k`, a run with a registry repaired from `k` on ends in the same database,
      with the same error if any, as an uninterrupted run of the repaired registry from the start, and only the levels
      from `k` on are executed the second time. */
  lemma ResumeEqualsUninterrupted<C(!new)>(content: C, version: int, regs: seq<Migration<C>>, commits: int -> bool,
                                           repaired: seq<Migration<C>>, commits': int -> bool)
    requires Run(content, version, regs, commits).error.Some?
    requires ValidRegistry(repaired) && MIN_READ_SCHEMA <= version && Run(content, version, regs, commits).version <= TargetOf(repaired)
    requires Agree(regs, commits, repaired, commits', version, Run(content, version, regs, commits).version)
    ensures var first := Run(content, version, regs, commits);
            var second := Run(first.content, first.version, repaired, commits');
            Run(content, version, repaired, commits') == second.(committed := Interval(version, first.version) + second.committed)
  {
    var first := Run(content, version, regs, commits);
    ProblemIffInvalid(repaired, {}, {});
    if first.version == version && first.content == content {
      var second := Run(content, version, repaired, commits');
      assert Interval(version, version) + second.committed == second.committed;
    } else {
      AdvanceOutcome(content, version, TargetOf(regs), regs, commits);
      LevelsAgree(regs, commits, repaired, commits', version, first.version, content);
      AdvanceFrom(content, version, first.version, TargetOf(repaired), repaired, commits');
    }
  }

  // ---- inspect and migrate ----

  datatype Status = Missing | Unversioned | VersionTooNew | NeedsMigration | UpToDate | Failed

  function Classify(version: int, maxRead: int, target: int): Status {
    if version == 0 then Unversioned
    else if version > maxRead then VersionTooNew
    else if version < target then NeedsMigration
    else UpToDate
  }

  function LevelsFrom<C>(regs: seq<Migration<C>>, version: int): seq<int> {
    if regs == [] then []
    else (if regs[0].from >= version then [regs[0].from] else []) + LevelsFrom(regs[1..], version)
  }

  /** The pending list of the read-only command. */
  function Pending<C>(regs: seq<Migration<C>>, version: int): seq<int> {
    if Classify(version, MAX_READ_SCHEMA, TARGET_SCHEMA) == NeedsMigration then LevelsFrom(regs, version) else []
  }

  datatype Report = Report(status: Status, applied: seq<int>)

  /** The migrating command on an existing database; `valid` is the structural check after the run. The log of the
      engine is returned beside the report. */
  method Migrate<C>(conn: Connection<C>, regs: seq<Migration<C>>, commits: int -> bool, valid: C -> bool)
    returns (report: Report, executed: seq<int>)
    modifies conn
    ensures MigrateSpec(old(conn.content), old(conn.userVersion), regs, commits, valid)
              == (report, Outcome(conn.content, conn.userVersion, None, executed))
  {
    var status := Classify(conn.userVersion, MAX_READ_SCHEMA, TARGET_SCHEMA);
    if status == Unversioned || status == VersionTooNew {
      return Report(status, []), [];
    }
    var applied := LevelsFrom(regs, conn.userVersion);
    var error;
    error, executed := conn.RunMigrations(regs, commits);
    if error == None && valid(conn.content) {
      report := Report(UpToDate, applied);
    } else {
      report := Report(Failed, []);
    }
  }

  function MigrateSpec<C>(content: C, version: int, regs: seq<Migration<C>>, commits: int -> bool, valid: C -> bool): (Report, Outcome<C>) {
    var status := Classify(version, MAX_READ_SCHEMA, TARGET_SCHEMA);
    if status == Unversioned || status == VersionTooNew then (Report(status, []), Outcome(content, version, None, []))
    else
      var o := Run(content, version, regs, commits);
      (if o.error == None && valid(o.content) then Report(UpToDate, LevelsFrom(regs, version)) else Report(Failed, []),
       o.(error := None))
  }

  /** The registry the program ships: levels 1 to 7, in order, each leading to the next version. */
  ghost predicate Shipped<C>(regs: seq<Migration<C>>) {
    |regs| == 7 && forall i :: 0 <= i < 7 ==> regs[i].from == i + 1 && regs[i].to == i + 2
  }

  /** A registry listing the consecutive levels from `first` on. */
  ghost predicate Consecutive<C>(regs: seq<Migration<C>>, first: int) {
    forall i :: 0 <= i < |regs| ==> regs[i].from == first + i && regs[i].to == first + i + 1
  }

  lemma {:induction false} ConsecutiveLevels<C>(regs: seq<Migration<C>>, first: int, version: int)
    requires Consecutive(regs, first) && first <= version
    ensures LevelsFrom(regs, version) == Interval(version, first + |regs|)
  {
    if regs != [] {
      assert Consecutive(regs[1..], first + 1);
      if first == version {
        AllLevels(regs[1..], first + 1, version);
        assert [first] + Interval(first + 1, first + |regs|) == Interval(first, first + |regs|);
      } else {
        ConsecutiveLevels(regs[1..], first + 1, version);
      }
    }
  }

  lemma {:induction false} AllLevels<C>(regs: seq<Migration<C>>, first: int, version: int)
    requires Consecutive(regs, first) && version <= first
    ensures LevelsFrom(regs, version) == Interval(first, first + |regs|)
  {
    if regs != [] {
      assert Consecutive(regs[1..], first + 1);
      AllLevels(regs[1..], first + 1, version);
      assert [first] + Interval(first + 1, first + |regs|) == Interval(first, first + |regs|);
    }
  }

  lemma {:induction false} ConsecutiveTarget<C>(regs: seq<Migration<C>>, first: int)
    requires Consecutive(regs, first) && regs != []
    ensures MaxTo(regs) == first + |regs|
  {
    if |regs| > 1 {
      assert Consecutive(regs[1..], first + 1);
      ConsecutiveTarget(regs[1..], first + 1);
    }
  }

  lemma ShippedRegistry<C>(regs: seq<Migration<C>>, version: int)
    requires Shipped(regs)
    ensures ValidRegistry(regs) && TargetOf(regs) == TARGET_SCHEMA && ProblemFrom(regs, {}, {}) == None
    ensures version >= 1 ==> LevelsFrom(regs, version) == Interval(version, TARGET_SCHEMA)
    ensures version <= 1 ==> LevelsFrom(regs, version) == Interval(1, TARGET_SCHEMA)
  {
    assert Consecutive(regs, 1);
    ConsecutiveTarget(regs, 1);
    ProblemIffInvalid(regs, {}, {});
    if version >= 1 {
      ConsecutiveLevels(regs, 1, version);
    }
    if version <= 1 {
      AllLevels(regs, 1, version);
    }
  }

  /** The two commands and the engine agree: for a stored version from 1 to the target a successful migration reports
      and executes exactly the levels the inspection listed as pending; for version 0 and above the maximum nothing is
      executed, nothing changes and nothing was pending, and each is told by a status of its own. */
  lemma ObserversAgree<C>(content: C, version: int, regs: seq<Migration<C>>, commits: int -> bool, valid: C -> bool)
    requires Shipped(regs)
    ensures var (report, o) := MigrateSpec(content, version, regs, commits, valid);
            && (1 <= version <= TARGET_SCHEMA && report.status == UpToDate ==>
                  report.applied == o.committed == Pending(regs, version) == Interval(version, TARGET_SCHEMA) && o.version == TARGET_SCHEMA)
            && (version == 0 || version > MAX_READ_SCHEMA ==>
                  report.applied == o.committed == Pending(regs, version) == [] && o.content == content && o.version == version
                  && report.status == if version == 0 then Unversioned else VersionTooNew)
            && (1 <= version <= TARGET_SCHEMA ==> report.status == UpToDate || report.status == Failed)
    ensures Classify(version, MAX_READ_SCHEMA, TARGET_SCHEMA) == UpToDate <==> version == TARGET_SCHEMA
    ensures Classify(version, MAX_READ_SCHEMA, TARGET_SCHEMA) == NeedsMigration <==> version < TARGET_SCHEMA && version != 0
  {
    ShippedRegistry(regs, version);
    if 1 <= version <= TARGET_SCHEMA {
      AdvanceOutcome(content, version, TARGET_SCHEMA, regs, commits);
    }
  }

  /** A negative version is reported as migratable, with every level pending, but migrating refuses it unchanged. */
  lemma NegativeVersionDisagrees<C>(content: C, version: int, regs: seq<Migration<C>>, commits: int -> bool, valid: C -> bool)
    requires Shipped(regs) && version < 0
    ensures Classify(version, MAX_READ_SCHEMA, TARGET_SCHEMA) == NeedsMigration
    ensures Pending(regs, version) == Interval(1, TARGET_SCHEMA)
    ensures MigrateSpec(content, version, regs, commits, valid) == (Report(Failed, []), Outcome(content, version, None, []))
  {
    ShippedRegistry(regs, version);
  }

  /** A failed migration reports no applied level; exactly the levels up to the one that failed were committed. */
  lemma FailureUnderreports<C>(content: C, version: int, regs: seq<Migration<C>>, commits: int -> bool, valid: C -> bool)
    requires Shipped(regs) && 1 <= version <= TARGET_SCHEMA
    ensures var (report, o) := MigrateSpec(content, version, regs, commits, valid);
            && o.committed == Interval(version, o.version)
            && (report.status == Failed ==> report.applied == [])
            && (report.status == Failed <==>
                  Levels(regs, commits, version, TARGET_SCHEMA, content) == None
                  || !valid(Levels(regs, commits, version, TARGET_SCHEMA, content).value))
  {
    ShippedRegistry(regs, version);
    AdvanceOutcome(content, version, TARGET_SCHEMA, regs, commits);
    ReachesIff(content, version, TARGET_SCHEMA, regs, commits);
  }

  /** When nothing pending can be executed, or everything can be and the result is valid. */
  ghost predicate AllOrNothing<C>(content: C, version: int, regs: seq<Migration<C>>, commits: int -> bool, valid: C -> bool) {
    || Level(regs, commits, version, content) == None
    || match Levels(regs, commits, version, TARGET_SCHEMA, content) { case None => false case Some(end) => valid(end) }
  }

  /** The applied list of the report is the list of executed levels exactly when no level was pending, or the first
      pending level cannot be executed, or all of them can be and the result is valid. It is wrong exactly when the first
      pending level is committed and a later level or the final check then fails. */
  lemma AppliedIsExecutedIff<C>(content: C, version: int, regs: seq<Migration<C>>, commits: int -> bool, valid: C -> bool)
    requires Shipped(regs)
    ensures var (report, o) := MigrateSpec(content, version, regs, commits, valid);
            report.applied == o.committed <==>
              !(1 <= version < TARGET_SCHEMA) || AllOrNothing(content, version, regs, commits, valid)
  {
    var (report, o) := MigrateSpec(content, version, regs, commits, valid);
    ShippedRegistry(regs, version);
    if 1 <= version <= TARGET_SCHEMA {
      ObserversAgree(content, version, regs, commits, valid);
      FailureUnderreports(content, version, regs, commits, valid);
      if version < TARGET_SCHEMA {
        FirstLevelRuns(content, version, regs, commits);
        assert o.committed == [] <==> o.version == version;
      }
    } else if version < 0 {
      NegativeVersionDisagrees(content, version, regs, commits, valid);
    } else {
      ObserversAgree(content, version, regs, commits, valid);
    }
  }

  /** A run below the target moves on exactly when its first level can be executed. */
  lemma FirstLevelRuns<C>(content: C, version: int, regs: seq<Migration<C>>, commits: int -> bool)
    requires Shipped(regs) && 1 <= version < TARGET_SCHEMA
    ensures Run(content, version, regs, commits).version > version <==> Level(regs, commits, version, content).Some?
  {
    ShippedRegistry(regs, version);
    if Level(regs, commits, version, content).Some? {
      var next := Level(regs, commits, version, content).value;
      AdvanceOutcome(next, version + 1, TARGET_SCHEMA, regs, commits);
    }
  }

  function CountUp(level: int): Migration<int> {
    Migration(level, level + 1, (c: int) => if level == 2 then None else Some(c + 1))
  }

  /** A registry of the shipped shape whose second level always fails. */
  function SecondFails(): seq<Migration<int>> { seq(7, i => CountUp(i + 1)) }

  function Always(): int -> bool { (level: int) => true }

  /** Level 1 succeeds and level 2 fails: level 1 stays committed and the report lists nothing. */
  lemma UnderreportedRun()
    ensures Shipped(SecondFails())
    ensures MigrateSpec(10, 1, SecondFails(), Always(), Always()) == (Report(Failed, []), Outcome(11, 2, None, [1]))
  {
    var regs := SecondFails();
    ShippedRegistry(regs, 1);
    FindAt(regs, 1, 1);
    FindAt(regs, 1, 2);
    assert CountUp(1).apply(10) == Some(11) && CountUp(2).apply(11) == None;
    assert Advance(11, 2, TARGET_SCHEMA, regs, Always()) == Outcome(11, 2, Some(FailedLevel(2)), []);
    assert Advance(10, 1, TARGET_SCHEMA, regs, Always()) == Outcome(11, 2, Some(FailedLevel(2)), [1] + []);
    assert [1] + [] == [1];
    assert Run(10, 1, regs, Always()) == Outcome(11, 2, Some(FailedLevel(2)), [1]);
  }

  lemma {:induction false} FindAt<C>(regs: seq<Migration<C>>, first: int, version: int)
    requires Consecutive(regs, first) && first <= version < first + |regs|
    ensures Find(regs, version) == Some(regs[version - first])
  {
    if version > first {
      assert Consecutive(regs[1..], first + 1);
      FindAt(regs[1..], first + 1, version);
    }
  }
}
