/** The package store: packages on disk, activity handles that keep them there, and the operations that race for them. */
module PackageStore {
  import opened Bytes
  import opened FileTree
  import opened Manifest
  import ArchivePath

  datatype StoreError = BadPackageId | NotFound | AlreadyExists | Busy | Refused(reason: ManifestError) | RemovalFailed

  // ---- Reading and building packages ----

  /** The manifest of a package; a package without a readable manifest of its own id counts as absent. */
  function TryManifest(packages: map<string, Node>, id: string, lib: Library): (r: Result<Option<Manifest>, StoreError>)
    ensures r.Ok? && r.value.Some? ==> id in packages && packages[id].Dir? && lib.scopeId(id) && r.value.value.id == id
  {
    if !lib.scopeId(id) then Err(BadPackageId)
    else if !(id in packages && packages[id].Dir?) then Ok(None)
    else
      var entries := packages[id].entries;
      if !(ArchivePath.MANIFEST_NAME in entries && Followed(entries[ArchivePath.MANIFEST_NAME]).File?) then Ok(None)
      else
        match ParsePackageToml(Followed(entries[ArchivePath.MANIFEST_NAME]).data, lib)
        case Err(_) => Ok(None)
        case Ok(m) => Ok(if m.id == id then Some(m) else None)
  }

  function ManifestOf(packages: map<string, Node>, id: string, lib: Library): (r: Result<Manifest, StoreError>)
    ensures r.Ok? ==> id in packages && packages[id].Dir?
  {
    var found :- TryManifest(packages, id, lib);
    if found == None then Err(NotFound) else Ok(found.value)
  }

  function NewPackage(m: Manifest): Node {
    Dir(map["shared" := Dir(map[])]["plugins" := Dir(map[])][ArchivePath.MANIFEST_NAME := File(PrintedBytes(m))])
  }

  function Create(packages: map<string, Node>, input: PackageInput, lib: Library): Result<Manifest, StoreError> {
    match IntoManifest(input, 1, lib)
    case Err(reason) => Err(Refused(reason))
    case Ok(m) => if m.id in packages then Err(AlreadyExists) else Ok(m)
  }

  /** The manifest a duplicate of `source` under `id` will carry. */
  function Duplicated(packages: map<string, Node>, source: string, id: string, lib: Library): (r: Result<Manifest, StoreError>)
    ensures r.Ok? ==> source in packages && packages[source].Dir? && id !in packages
  {
    if !lib.scopeId(id) then Err(BadPackageId)
    else
      var m :- ManifestOf(packages, source, lib);
      if id in packages then Err(AlreadyExists) else Ok(m.(id := id, revision := 1))
  }

  /** A package is listed exactly when it is a directory with a readable manifest that names it. */
  lemma ListedIff(packages: map<string, Node>, id: string, lib: Library, m: Manifest)
    ensures TryManifest(packages, id, lib) == Ok(Some(m)) <==>
              && lib.scopeId(id) && id in packages && packages[id].Dir? && "package.toml" in packages[id].entries
              && (var file := Followed(packages[id].entries["package.toml"]);
                  file.File? && ParsePackageToml(file.data, lib) == Ok(m) && m.id == id)
    ensures TryManifest(packages, id, lib).Err? <==> !lib.scopeId(id)
    ensures ManifestOf(packages, id, lib) == Ok(m) <==> TryManifest(packages, id, lib) == Ok(Some(m))
  {}

  /** A package is created exactly when its input builds a manifest and nothing has its name yet. It then has two empty
      directories beside its manifest. */
  lemma CreatedIff(packages: map<string, Node>, input: PackageInput, lib: Library)
    ensures Create(packages, input, lib).Ok? <==> IntoManifest(input, 1, lib).Ok? && input.id !in packages
    ensures Create(packages, input, lib).Ok? ==> Ok(Create(packages, input, lib).value) == IntoManifest(input, 1, lib)
    ensures Create(packages, input, lib).Err? ==>
              Create(packages, input, lib).error ==
                if IntoManifest(input, 1, lib).Err? then Refused(IntoManifest(input, 1, lib).error) else AlreadyExists
  {}

  lemma NewPackageHolds(m: Manifest)
    ensures NewPackage(m).Dir? && NewPackage(m).entries.Keys == {"shared", "plugins", "package.toml"}
    ensures NewPackage(m).entries["shared"] == NewPackage(m).entries["plugins"] == Dir(map[])
    ensures NewPackage(m).entries["package.toml"] == File(PrintedBytes(m))
  {
    assert |"shared"| == 6 && |"plugins"| == 7 && |"package.toml"| == 12;
  }

  /** A package is duplicated exactly when the new id is valid and free and the source is listed. */
  lemma DuplicatedIff(packages: map<string, Node>, source: string, id: string, lib: Library)
    ensures Duplicated(packages, source, id, lib).Ok? <==> lib.scopeId(id) && id !in packages && ManifestOf(packages, source, lib).Ok?
    ensures Duplicated(packages, source, id, lib).Err? ==>
              Duplicated(packages, source, id, lib).error ==
                if !lib.scopeId(id) then BadPackageId
                else if ManifestOf(packages, source, lib).Err? then ManifestOf(packages, source, lib).error
                else AlreadyExists
  {}

  lemma ManifestInside(packages: map<string, Node>, id: string, lib: Library)
    requires ManifestOf(packages, id, lib).Ok?
    ensures ArchivePath.MANIFEST_NAME in packages[id].entries && Followed(packages[id].entries[ArchivePath.MANIFEST_NAME]).File?
    ensures ParsePackageToml(Followed(packages[id].entries[ArchivePath.MANIFEST_NAME]).data, lib) == Ok(ManifestOf(packages, id, lib).value)
  {}

  // ---- The store as a state machine ----

  /** Who holds the write lock between two of its steps. Releasing a handle does not take it. */
  datatype Lock = Free | Acquiring(package: string) | Deleting(package: string)

  /** `handles` are the activity handles that exist, each with its package; `issued` numbers them. */
  datatype State = State(
    packages: map<string, Node>, activities: map<string, nat>, handles: map<nat, string>, issued: nat, lock: Lock)

  datatype Step =
    | CreateStep(input: PackageInput)
    | DuplicateStep(source: string, id: string)
    | Edit(id: string, contents: map<string, Node>)
    | AcquireBegin(id: string)
    | AcquireEnd
    | Drop(handle: nat)
    | DeleteBegin(id: string)
    | DeleteEnd(removed: bool, remains: Node)

  function Stored(activities: map<string, nat>, id: string): nat { if id in activities then activities[id] else 0 }

  /** Subtraction on a 64-bit counter; an entry that reaches zero is removed. */
  function Release(activities: map<string, nat>, id: string): map<string, nat> {
    if id !in activities then activities
    else
      var left := if activities[id] == 0 then U64_LIMIT - 1 else activities[id] - 1;
      if left == 0 then activities - {id} else activities[id := left]
  }

  function DeleteRefusal(s: State, id: string, lib: Library): Option<StoreError> {
    if id in s.activities then Some(Busy) else if !lib.scopeId(id) then Some(BadPackageId) else None
  }

  /** One step of some thread. A step whose operation is refused, or that has to wait for the lock, changes nothing. */
  function Next(s: State, step: Step, lib: Library): State {
    match step
    case Drop(handle) =>
      if handle !in s.handles then s
      else s.(handles := s.handles - {handle}, activities := Release(s.activities, s.handles[handle]))
    case AcquireEnd =>
      if !s.lock.Acquiring? then s
      else
        var id := s.lock.package;
        s.(activities := s.activities[id := Stored(s.activities, id) + 1], handles := s.handles[s.issued := id],
           issued := s.issued + 1, lock := Free)
    case DeleteEnd(removed, remains) =>
      if !s.lock.Deleting? then s
      else
        var id := s.lock.package;
        s.(packages := if removed then s.packages - {id} else s.packages[id := remains], lock := Free)
    case _ => if s.lock != Free then s else Locked(s, step, lib)
  }

  /** The steps that begin by taking the lock. */
  function Locked(s: State, step: Step, lib: Library): State {
    match step
    case CreateStep(input) =>
      (match Create(s.packages, input, lib)
       case Err(_) => s
       case Ok(m) => s.(packages := s.packages[m.id := NewPackage(m)]))
    case DuplicateStep(source, id) =>
      (match Duplicated(s.packages, source, id, lib)
       case Err(_) => s
       case Ok(m) =>
         s.(packages := s.packages[id := DuplicateTree(s.packages[source], PrintedBytes(m))]))
    case Edit(id, contents) =>
      if !(id in s.packages && s.packages[id].Dir?) then s else s.(packages := s.packages[id := Dir(contents)])
    case AcquireBegin(id) =>
      if ManifestOf(s.packages, id, lib).Err? then s else s.(lock := Acquiring(id))
    case DeleteBegin(id) =>
      if DeleteRefusal(s, id, lib).Some? || id !in s.packages then s else s.(lock := Deleting(id))
    case _ => s
  }

  function Run(s: State, steps: seq<Step>, lib: Library): State
    decreases |steps|
  {
    if steps == [] then s else Run(Next(s, steps[0], lib), steps[1..], lib)
  }

  /** A run goes on from where it has come to. */
  lemma {:induction false} RunGoesOn(s: State, steps: seq<Step>, step: Step, lib: Library)
    ensures Run(s, steps + [step], lib) == Next(Run(s, steps, lib), step, lib)
    decreases |steps|
  {
    if steps == [] {
      assert ([] + [step])[0] == step && ([] + [step])[1..] == [];
      assert Run(s, [step], lib) == Run(Next(s, step, lib), [], lib);
      assert [] + [step] == [step];
    } else {
      assert (steps + [step])[1..] == steps[1..] + [step];
      RunGoesOn(Next(s, steps[0], lib), steps[1..], step, lib);
    }
  }

  /** While the lock is held only its holder goes on, and handles are released; an edit changes the contents of one existing
      package and nothing else. */
  lemma LockExcludes(s: State, step: Step, lib: Library)
    ensures s.lock != Free && !step.Drop? && !step.AcquireEnd? && !step.DeleteEnd? ==> Next(s, step, lib) == s
    ensures step.Drop? && step.handle in s.handles ==>
              && step.handle !in Next(s, step, lib).handles && Next(s, step, lib).lock == s.lock && Next(s, step, lib).packages == s.packages
    ensures s.lock == Free && step.Edit? ==>
              Next(s, step, lib) ==
                if step.id in s.packages && s.packages[step.id].Dir? then s.(packages := s.packages[step.id := Dir(step.contents)]) else s
    ensures s.lock.Deleting? && step.DeleteEnd? ==>
              Next(s, step, lib).packages ==
                if step.removed then s.packages - {s.lock.package} else s.packages[s.lock.package := step.remains]
  {}

  ghost function HandlesOf(handles: map<nat, string>, id: string): set<nat> { set h | h in handles && handles[h] == id }

  /** The stored count of every package is the number of its handles, no zero is stored, and whatever is in use or about
      to be is still there. */
  ghost predicate Inv(s: State) {
    && (forall id :: Stored(s.activities, id) == |HandlesOf(s.handles, id)|)
    && (forall id :: id in s.activities ==> s.activities[id] > 0)
    && (forall h :: h in s.handles ==> h < s.issued && s.handles[h] in s.packages)
    && (s.lock.Acquiring? ==> s.lock.package in s.packages)
    && (s.lock.Deleting? ==> s.lock.package !in s.activities)
  }

  lemma HandleAdded(handles: map<nat, string>, h: nat, mine: string, id: string)
    requires h !in handles
    ensures |HandlesOf(handles[h := mine], id)| == |HandlesOf(handles, id)| + if id == mine then 1 else 0
  {
    assert HandlesOf(handles[h := mine], id) == HandlesOf(handles, id) + if id == mine then {h} else {};
  }

  lemma HandleRemoved(handles: map<nat, string>, h: nat, id: string)
    requires h in handles
    ensures |HandlesOf(handles - {h}, id)| == |HandlesOf(handles, id)| - if id == handles[h] then 1 else 0
  {
    assert HandlesOf(handles - {h}, id) == HandlesOf(handles, id) - if id == handles[h] then {h} else {};
  }

  lemma DropKeeps(s: State, h: nat, lib: Library)
    requires Inv(s) && h in s.handles
    ensures Inv(Next(s, Drop(h), lib))
  {
    var t, mine := Next(s, Drop(h), lib), s.handles[h];
    assert h in HandlesOf(s.handles, mine);
    forall id
      ensures Stored(t.activities, id) == |HandlesOf(t.handles, id)|
    {
      HandleRemoved(s.handles, h, id);
    }
  }

  lemma AcquireKeeps(s: State, lib: Library)
    requires Inv(s) && s.lock.Acquiring?
    ensures Inv(Next(s, AcquireEnd, lib))
  {
    var t, mine := Next(s, AcquireEnd, lib), s.lock.package;
    forall id
      ensures Stored(t.activities, id) == |HandlesOf(t.handles, id)|
    {
      HandleAdded(s.handles, s.issued, mine, id);
    }
  }

  lemma DeleteKeeps(s: State, removed: bool, remains: Node, lib: Library)
    requires Inv(s) && s.lock.Deleting?
    ensures Inv(Next(s, DeleteEnd(removed, remains), lib))
  {
    var id := s.lock.package;
    forall h | h in s.handles
      ensures s.handles[h] != id
    {
      assert HandlesOf(s.handles, id) == {};
      assert h !in HandlesOf(s.handles, id);
    }
  }

  lemma LockedKeeps(s: State, step: Step, lib: Library)
    requires Inv(s) && s.lock == Free
    ensures Inv(Locked(s, step, lib))
  {}

  lemma NextKeeps(s: State, step: Step, lib: Library)
    requires Inv(s)
    ensures Inv(Next(s, step, lib))
  {
    match step {
      case Drop(h) => if h in s.handles { DropKeeps(s, h, lib); }
      case AcquireEnd => if s.lock.Acquiring? { AcquireKeeps(s, lib); }
      case DeleteEnd(removed, remains) => if s.lock.Deleting? { DeleteKeeps(s, removed, remains, lib); }
      case _ => if s.lock == Free { LockedKeeps(s, step, lib); }
    }
  }

  /** Every interleaving keeps the counts right and the used packages in place. */
  lemma {:induction false} RunKeeps(s: State, steps: seq<Step>, lib: Library)
    requires Inv(s)
    ensures Inv(Run(s, steps, lib))
    decreases |steps|
  {
    if steps != [] {
      NextKeeps(s, steps[0], lib);
      RunKeeps(Next(s, steps[0], lib), steps[1..], lib);
    }
  }

  /** From a store without handles, whatever threads do and in whatever order: counts are exact, and a package whose
      handle still exists is there and refuses deletion. */
  lemma InUseStays(packages: map<string, Node>, steps: seq<Step>, lib: Library, h: nat, id: string)
    requires var s := Run(State(packages, map[], map[], 0, Free), steps, lib); h in s.handles && s.handles[h] == id
    ensures var s := Run(State(packages, map[], map[], 0, Free), steps, lib);
            && id in s.packages
            && id in s.activities && s.activities[id] == |HandlesOf(s.handles, id)|
            && DeleteRefusal(s, id, lib) == Some(Busy) && Next(s, DeleteBegin(id), lib) == s
  {
    var begun := State(packages, map[], map[], 0, Free);
    assert forall id :: HandlesOf(begun.handles, id) == {};
    RunKeeps(begun, steps, lib);
    var s := Run(begun, steps, lib);
    assert h in HandlesOf(s.handles, id);
    assert Stored(s.activities, id) == |HandlesOf(s.handles, id)|;
  }

  // ---- What new packages can be read as ----

  lemma StoredManifest(packages: map<string, Node>, id: string, dir: Node, m: Manifest, lib: Library)
    requires dir.Dir? && ArchivePath.MANIFEST_NAME in dir.entries && dir.entries[ArchivePath.MANIFEST_NAME] == File(PrintedBytes(m))
    requires lib.scopeId(id) && m.id == id
    requires ParsePackageToml(PrintedBytes(m), lib).Ok? ==> ParsePackageToml(PrintedBytes(m), lib) == Ok(m)
    ensures TryManifest(packages[id := dir], id, lib) == Ok(if ParsePackageToml(PrintedBytes(m), lib).Ok? then Some(m) else None)
  {}

  lemma BuiltIsListedIff(packages: map<string, Node>, input: PackageInput, lib: Library, m: Manifest)
    requires Faithful(lib) && Ascending(input.plugins) && IntoManifest(input, 1, lib) == Ok(m)
    requires lib.scopeId(m.id)
    ensures TryManifest(packages[m.id := NewPackage(m)], m.id, lib) ==
              Ok(if Printable(m) && PrefixesFit(m, lib) then Some(m) else None)
  {
    RoundTrip(input, 1, lib, m);
    StoredManifest(packages, m.id, NewPackage(m), m, lib);
  }

  /** A package that was just created is listed under its manifest exactly when the printed manifest can be read. */
  lemma CreatedIsListedIff(packages: map<string, Node>, input: PackageInput, lib: Library)
    requires Faithful(lib) && Ascending(input.plugins) && Create(packages, input, lib).Ok?
    ensures var m := Create(packages, input, lib).value;
            TryManifest(packages[m.id := NewPackage(m)], m.id, lib) ==
              Ok(if Printable(m) && PrefixesFit(m, lib) then Some(m) else None)
  {
    BuiltIsListedIff(packages, input, lib, Create(packages, input, lib).value);
  }

  lemma RenamedIsBuilt(input: PackageInput, revision: nat, lib: Library, id: string)
    requires IntoManifest(input, revision, lib).Ok? && lib.scopeId(id)
    ensures IntoManifest(input.(id := id), 1, lib) == Ok(IntoManifest(input, revision, lib).value.(id := id, revision := 1))
  {}

  /** A duplicate carries the manifest of its source with the new id and revision 1, and is listed with it exactly when
      the printed manifest can be read. */
  lemma DuplicateIsListedIff(packages: map<string, Node>, source: string, id: string, lib: Library)
    requires Faithful(lib) && Duplicated(packages, source, id, lib).Ok?
    ensures var m := Duplicated(packages, source, id, lib).value;
            && m == ManifestOf(packages, source, lib).value.(id := id, revision := 1)
            && TryManifest(packages[id := DuplicateTree(packages[source], PrintedBytes(m))], id, lib) ==
                 Ok(if Printable(m) && PrefixesFit(m, lib) then Some(m) else None)
  {
    ManifestInside(packages, source, lib);
    var m := Duplicated(packages, source, id, lib).value;
    var input, revision := ReadIsBuilt(Followed(packages[source].entries[ArchivePath.MANIFEST_NAME]).data, lib);
    RenamedIsBuilt(input, revision, lib, id);
    RoundTrip(input.(id := id), 1, lib, m);
    StoredManifest(packages, id, DuplicateTree(packages[source], PrintedBytes(m)), m, lib);
  }

  // ---- The store object ----

  /** The store after a package was acquired, or its refusal. */
  function Acquired(s: State, id: string, lib: Library): State { AcquiredIf(s, id, ManifestOf(s.packages, id, lib).Ok?) }

  function AcquiredIf(s: State, id: string, found: bool): State {
    if !found then s
    else State(s.packages, s.activities[id := Stored(s.activities, id) + 1], s.handles[s.issued := id], s.issued + 1, s.lock)
  }

  lemma AcquireEnds(begun: State, lib: Library)
    requires begun.lock.Acquiring?
    ensures var id := begun.lock.package;
            Next(begun, AcquireEnd, lib) ==
              State(begun.packages, begun.activities[id := Stored(begun.activities, id) + 1], begun.handles[begun.issued := id],
                    begun.issued + 1, Free)
  {}

  lemma AcquireBegins(s: State, id: string, lib: Library)
    requires s.lock == Free
    ensures Next(s, AcquireBegin(id), lib) == if ManifestOf(s.packages, id, lib).Err? then s else s.(lock := Acquiring(id))
  {}

  lemma AcquiredAfter(s: State, begun: State, id: string, found: bool, lib: Library)
    requires s.lock == Free && begun == if found then s.(lock := Acquiring(id)) else s
    ensures AcquiredIf(s, id, found) == Next(begun, AcquireEnd, lib)
  {
    if begun.lock.Acquiring? {
      AcquireEnds(begun, lib);
    }
  }

  /** Acquiring without a pause is the two steps of acquiring, one after the other. */
  lemma AcquiredInTwoSteps(s: State, id: string, lib: Library)
    requires s.lock == Free
    ensures Acquired(s, id, lib) == Next(Next(s, AcquireBegin(id), lib), AcquireEnd, lib)
  {
    AcquireBegins(s, id, lib);
    AcquiredAfter(s, Next(s, AcquireBegin(id), lib), id, ManifestOf(s.packages, id, lib).Ok?, lib);
  }

  lemma AcquiredKeeps(s: State, id: string, lib: Library)
    requires Inv(s) && s.lock == Free
    ensures Inv(Acquired(s, id, lib))
  {
    AcquiredInTwoSteps(s, id, lib);
    NextKeeps(s, AcquireBegin(id), lib);
    NextKeeps(Next(s, AcquireBegin(id), lib), AcquireEnd, lib);
  }

  /** Dropping a handle takes one from its package's count and from no other. */
  lemma Dropped(s: State, h: nat, lib: Library)
    requires Inv(s) && h in s.handles
    ensures var t := Next(s, Drop(h), lib);
            && Inv(t)
            && Stored(t.activities, s.handles[h]) == Stored(s.activities, s.handles[h]) - 1
            && forall id :: id != s.handles[h] ==> Stored(t.activities, id) == Stored(s.activities, id)
  {
    DropKeeps(s, h, lib);
    assert h in HandlesOf(s.handles, s.handles[h]);
    assert Stored(s.activities, s.handles[h]) == |HandlesOf(s.handles, s.handles[h])|;
  }

  lemma UsedIff(s: State, id: string)
    requires Inv(s)
    ensures id in s.activities <==> exists h :: h in s.handles && s.handles[h] == id
  {
    assert Stored(s.activities, id) == |HandlesOf(s.handles, id)|;
    if h :| h in s.handles && s.handles[h] == id {
      assert h in HandlesOf(s.handles, id);
    } else {
      assert HandlesOf(s.handles, id) == {};
    }
  }

  /** What the program holds while it uses a package. */
  datatype PackageActivity = PackageActivity(handle: nat, package: string)

  /** `handles` and `issued` stand for the handle objects in the program; between its methods the lock is free. */
  class Store {
    const lib: Library
    var packages: map<string, Node>
    var activities: map<string, nat>
    var handles: map<nat, string>
    var issued: nat

    ghost function Snapshot(): State
      reads this
    {
      State(packages, activities, handles, issued, Free)
    }

    ghost predicate Valid()
      reads this
    {
      Inv(Snapshot())
    }

    constructor (packages: map<string, Node>, lib: Library)
      ensures Valid() && Snapshot() == State(packages, map[], map[], 0, Free) && this.lib == lib
    {
      this.packages, this.lib := packages, lib;
      activities, handles, issued := map[], map[], 0;
      new;
      assert forall id :: HandlesOf(handles, id) == {};
    }

    method AcquireActivity(id: string) returns (r: Result<PackageActivity, StoreError>)
      requires Valid()
      modifies `activities, `handles, `issued
      ensures Valid()
      ensures Snapshot() == Acquired(old(Snapshot()), id, lib)
      ensures r.Ok? <==> ManifestOf(packages, id, lib).Ok?
      ensures r.Err? ==> r.error == ManifestOf(packages, id, lib).error
      ensures r.Ok? ==> r.value.handle !in old(handles) && handles == old(handles)[r.value.handle := id] && r.value.package == id
    {
      AcquiredKeeps(Snapshot(), id, lib);
      var found := ManifestOf(packages, id, lib);
      if found.Err? {
        return Err(found.error);
      }
      var a := Register(id);
      return Ok(a);
    }

    /** One more handle, and one more count, for a package that is there. */
    method Register(id: string) returns (a: PackageActivity)
      requires Valid() && Inv(AcquiredIf(Snapshot(), id, true))
      modifies `activities, `handles, `issued
      ensures Valid() && Snapshot() == AcquiredIf(old(Snapshot()), id, true)
      ensures a == PackageActivity(old(issued), id) && a.handle !in old(handles)
    {
      activities := activities[id := Stored(activities, id) + 1];
      a := PackageActivity(issued, id);
      handles := handles[issued := id];
      issued := issued + 1;
    }

    /** The end of a handle's life. */
    method DropActivity(a: PackageActivity)
      requires Valid() && a.handle in handles && handles[a.handle] == a.package
      modifies `activities, `handles
      ensures Valid() && Snapshot() == Next(old(Snapshot()), Drop(a.handle), lib)
      ensures Stored(activities, a.package) == Stored(old(activities), a.package) - 1
      ensures forall id :: id != a.package ==> Stored(activities, id) == Stored(old(activities), id)
    {
      Dropped(Snapshot(), a.handle, lib);
      if a.package in activities {
        var left := if activities[a.package] == 0 then U64_LIMIT - 1 else activities[a.package] - 1;
        activities := activities[a.package := left];
        if left == 0 {
          activities := activities - {a.package};
        }
      }
      handles := handles - {a.handle};
    }

    /** `removed` and `remains` are what removing the directory comes to. */
    method DeletePackage(id: string, removed: bool, remains: Node) returns (r: Result<bool, StoreError>)
      requires Valid()
      modifies `packages
      ensures Valid()
      ensures Snapshot() == Next(Next(old(Snapshot()), DeleteBegin(id), lib), DeleteEnd(removed, remains), lib)
      ensures var busy := exists h :: h in handles && handles[h] == id;
              && (r == Err(Busy) <==> busy)
              && (r == Err(BadPackageId) <==> !busy && !lib.scopeId(id))
              && (r == Ok(false) <==> !busy && lib.scopeId(id) && id !in old(packages))
              && (r == Ok(true) <==> !busy && lib.scopeId(id) && id in old(packages) && removed)
              && (r == Err(RemovalFailed) <==> !busy && lib.scopeId(id) && id in old(packages) && !removed)
      ensures packages == (if r == Ok(true) then old(packages) - {id}
                           else if r == Err(RemovalFailed) then old(packages)[id := remains]
                           else old(packages))
    {
      ghost var begun := Snapshot();
      NextKeeps(begun, DeleteBegin(id), lib);
      NextKeeps(Next(begun, DeleteBegin(id), lib), DeleteEnd(removed, remains), lib);
      UsedIff(begun, id);
      var refusal := DeleteRefusal(State(packages, activities, handles, issued, Free), id, lib);
      if refusal.Some? {
        return Err(refusal.value);
      }
      if id !in packages {
        return Ok(false);
      }
      if !removed {
        packages := packages[id := remains];
        return Err(RemovalFailed);
      }
      packages := packages - {id};
      return Ok(true);
    }

    method CreatePackage(input: PackageInput) returns (r: Result<Manifest, StoreError>)
      requires Valid()
      modifies `packages
      ensures Valid() && Snapshot() == Next(old(Snapshot()), CreateStep(input), lib)
      ensures r == Create(old(packages), input, lib)
      ensures packages == if r.Ok? then old(packages)[r.value.id := NewPackage(r.value)] else old(packages)
    {
      NextKeeps(Snapshot(), CreateStep(input), lib);
      r := Create(packages, input, lib);
      if r.Ok? {
        packages := packages[r.value.id := NewPackage(r.value)];
      }
    }

    /** Copies the source directory and then writes the new manifest over the copied one. */
    method DuplicatePackage(source: string, id: string) returns (r: Result<Manifest, StoreError>)
      requires Valid()
      modifies `packages
      ensures Valid() && Snapshot() == Next(old(Snapshot()), DuplicateStep(source, id), lib)
      ensures r == Duplicated(old(packages), source, id, lib)
      ensures packages == if r.Ok? then old(packages)[id := DuplicateTree(old(packages)[source], PrintedBytes(r.value))] else old(packages)
    {
      NextKeeps(Snapshot(), DuplicateStep(source, id), lib);
      r := Duplicated(packages, source, id, lib);
      if r.Ok? {
        var copy := CopyDirContents(packages[source]);
        packages := packages[id := Dir(copy.entries[ArchivePath.MANIFEST_NAME := File(PrintedBytes(r.value))])];
      }
    }

    method PackageStats(id: string) returns (r: Result<Stats, StoreError>)
      requires Valid()
      ensures r.Ok? <==> lib.scopeId(id) && id in packages && packages[id].Dir?
      ensures r.Ok? ==> IsStats(packages[id], r.value)
      ensures r.Err? ==> r.error == if lib.scopeId(id) then NotFound else BadPackageId
    {
      if !lib.scopeId(id) {
        return Err(BadPackageId);
      }
      if !(id in packages && packages[id].Dir?) {
        return Err(NotFound);
      }
      var s := PackageStatistics(packages[id]);
      return Ok(s);
    }
  }
}
