/** Symbolic links that lead in a circle: when a walk over directories that follows links comes to an end of its own. */
module LinkCircles {
  import opened Bytes
  import opened FileTree
  import ArchivePath

  type Path = seq<string>

  /** What is on the disk; a link names its target by the folders from the root. */
  datatype Disk = PlainFile(data: seq<Byte>) | Other | Folder(entries: map<string, Disk>) | Symlink(length: nat, target: Path)

  function At(disk: Disk, path: Path): Option<Disk>
    decreases |path|
  {
    if path == [] then Some(disk)
    else if disk.Folder? && path[0] in disk.entries then At(disk.entries[path[0]], path[1..])
    else None
  }

  /** A path leads on from the folder it has come to, by the names in it. */
  lemma {:induction false} AtIff(disk: Disk, path: Path, name: string)
    ensures At(disk, []) == Some(disk)
    ensures var here := At(disk, path);
            At(disk, path + [name]) ==
              if here.Some? && here.value.Folder? && name in here.value.entries then Some(here.value.entries[name]) else None
    decreases |path|
  {
    if path == [] {
      assert [] + [name] == [name] && [name][1..] == [];
    } else {
      assert (path + [name])[1..] == path[1..] + [name];
      if disk.Folder? && path[0] in disk.entries {
        AtIff(disk.entries[path[0]], path[1..], name);
      }
    }
  }

  /** The names a walk passes over. */
  type Skips = string -> bool

  /** The tree a walk from `here` finds when a path may lead through `budget` links; one more link leads nowhere. */
  function Seen(root: Disk, here: Disk, skips: Skips, budget: nat): Node
    decreases budget, here
  {
    match here
    case PlainFile(data) => File(data)
    case Other => Special
    case Folder(entries) => Dir(map name | name in entries && !skips(name) :: Seen(root, entries[name], skips, budget))
    case Symlink(length, target) =>
      if budget == 0 || At(root, target) == None then Special
      else Link(length, Seen(root, At(root, target).value, skips, budget - 1))
  }

  /** Some path of the walk needs more links than the budget. */
  ghost predicate Cut(root: Disk, here: Disk, skips: Skips, budget: nat)
    decreases budget, here
  {
    match here
    case Folder(entries) => exists name :: name in entries && !skips(name) && Cut(root, entries[name], skips, budget)
    case Symlink(_, target) => At(root, target).Some? && (budget == 0 || Cut(root, At(root, target).value, skips, budget - 1))
    case _ => false
  }

  // ---- A budget that is enough ----

  lemma FolderStays(root: Disk, here: Disk, skips: Skips, budget: nat)
    requires here.Folder?
    requires forall name :: name in here.entries && !skips(name) ==>
               && !Cut(root, here.entries[name], skips, budget + 1)
               && Seen(root, here.entries[name], skips, budget + 1) == Seen(root, here.entries[name], skips, budget)
    ensures !Cut(root, here, skips, budget + 1) && Seen(root, here, skips, budget + 1) == Seen(root, here, skips, budget)
  {
    var a, b := Seen(root, here, skips, budget + 1), Seen(root, here, skips, budget);
    assert a.entries == b.entries;
  }

  lemma {:induction false} EnoughStays(root: Disk, here: Disk, skips: Skips, budget: nat)
    requires !Cut(root, here, skips, budget)
    ensures !Cut(root, here, skips, budget + 1) && Seen(root, here, skips, budget + 1) == Seen(root, here, skips, budget)
    decreases budget, here
  {
    match here
    case Folder(entries) =>
      forall name | name in entries && !skips(name)
        ensures !Cut(root, entries[name], skips, budget + 1)
        ensures Seen(root, entries[name], skips, budget + 1) == Seen(root, entries[name], skips, budget)
      {
        EnoughStays(root, entries[name], skips, budget);
      }
      FolderStays(root, here, skips, budget);
    case Symlink(length, target) =>
      if At(root, target).Some? {
        EnoughStays(root, At(root, target).value, skips, budget - 1);
      }
    case _ =>
  }

  /** With a budget that cuts nothing off, the walk is the one without any limit: a larger budget finds the same tree. */
  lemma {:induction false} EnoughIsAll(root: Disk, here: Disk, skips: Skips, budget: nat, more: nat)
    requires !Cut(root, here, skips, budget) && budget <= more
    ensures !Cut(root, here, skips, more) && Seen(root, here, skips, more) == Seen(root, here, skips, budget)
    decreases more
  {
    if budget < more {
      EnoughIsAll(root, here, skips, budget, more - 1);
      EnoughStays(root, here, skips, more - 1);
    }
  }

  // ---- Chains of links ----

  /** Below `here`, without following links, there is a link to `path` that leads somewhere. */
  ghost predicate LinkIn(root: Disk, here: Disk, skips: Skips, path: Path)
    decreases here
  {
    match here
    case Folder(entries) => exists name :: name in entries && !skips(name) && LinkIn(root, entries[name], skips, path)
    case Symlink(_, target) => target == path && At(root, path).Some?
    case _ => false
  }

  /** Links a walk from `here` can follow one after the other. */
  ghost predicate Chain(root: Disk, here: Disk, skips: Skips, paths: seq<Path>)
    decreases |paths|
  {
    paths == [] ||
      (LinkIn(root, here, skips, paths[0]) && At(root, paths[0]).Some? && Chain(root, At(root, paths[0]).value, skips, paths[1..]))
  }

  /** Where a chain of links leads. */
  function EndOf(root: Disk, here: Disk, paths: seq<Path>): Option<Disk> {
    if paths == [] then Some(here) else At(root, paths[|paths| - 1])
  }

  lemma {:induction false} CutNeedsLink(root: Disk, here: Disk, skips: Skips, budget: nat) returns (path: Path)
    requires Cut(root, here, skips, budget)
    ensures LinkIn(root, here, skips, path) && At(root, path).Some?
    ensures budget == 0 || Cut(root, At(root, path).value, skips, budget - 1)
    decreases here
  {
    match here
    case Folder(entries) =>
      var name :| name in entries && !skips(name) && Cut(root, entries[name], skips, budget);
      path := CutNeedsLink(root, entries[name], skips, budget);
    case Symlink(_, target) => path := target;
  }

  lemma {:induction false} LinkCuts(root: Disk, here: Disk, skips: Skips, path: Path, budget: nat)
    requires LinkIn(root, here, skips, path) && At(root, path).Some?
    requires budget == 0 || Cut(root, At(root, path).value, skips, budget - 1)
    ensures Cut(root, here, skips, budget)
    decreases here
  {
    match here
    case Folder(entries) =>
      var name :| name in entries && !skips(name) && LinkIn(root, entries[name], skips, path);
      LinkCuts(root, entries[name], skips, path, budget);
    case Symlink(_, _) =>
  }

  lemma {:induction false} CutNeedsChain(root: Disk, here: Disk, skips: Skips, budget: nat) returns (paths: seq<Path>)
    requires Cut(root, here, skips, budget)
    ensures |paths| == budget + 1 && Chain(root, here, skips, paths)
    decreases budget
  {
    var path := CutNeedsLink(root, here, skips, budget);
    var rest := [];
    if budget > 0 {
      rest := CutNeedsChain(root, At(root, path).value, skips, budget - 1);
    }
    paths := [path] + rest;
    assert paths[1..] == rest;
  }

  /** A chain of links that leads to a place where a budget is not enough. */
  lemma {:induction false} ChainCuts(root: Disk, here: Disk, skips: Skips, paths: seq<Path>, budget: nat)
    requires Chain(root, here, skips, paths) && EndOf(root, here, paths).Some?
    requires Cut(root, EndOf(root, here, paths).value, skips, budget)
    ensures Cut(root, here, skips, budget + |paths|)
    decreases |paths|
  {
    if paths != [] {
      ChainCuts(root, At(root, paths[0]).value, skips, paths[1..], budget);
      LinkCuts(root, here, skips, paths[0], budget + |paths|);
    }
  }

  lemma {:induction false} ChainSplits(root: Disk, here: Disk, skips: Skips, paths: seq<Path>, i: nat)
    requires Chain(root, here, skips, paths) && i < |paths|
    ensures Chain(root, here, skips, paths[..i + 1])
    ensures At(root, paths[i]).Some? && Chain(root, At(root, paths[i]).value, skips, paths[i + 1..])
    decreases |paths|
  {
    if i > 0 {
      ChainSplits(root, At(root, paths[0]).value, skips, paths[1..], i - 1);
      assert paths[1..][..i] == paths[..i + 1][1..];
      assert paths[1..][i..] == paths[i + 1..];
    } else {
      assert paths[..1][1..] == [];
    }
  }

  lemma CutLess(root: Disk, here: Disk, skips: Skips, budget: nat, less: nat)
    requires Cut(root, here, skips, budget) && less <= budget
    ensures Cut(root, here, skips, less)
  {
    if !Cut(root, here, skips, less) {
      EnoughIsAll(root, here, skips, less, budget);
    }
  }

  // ---- Circles ----

  /** Some chain of links comes to the same place twice. */
  ghost predicate Circular(root: Disk, here: Disk, skips: Skips) {
    exists paths, i, j :: 0 <= i < j < |paths| && Chain(root, here, skips, paths) && paths[i] == paths[j]
  }

  lemma {:induction false} LoopCuts(root: Disk, here: Disk, skips: Skips, loop: seq<Path>, budget: nat)
    requires loop != [] && Chain(root, here, skips, loop) && EndOf(root, here, loop) == Some(here)
    ensures Cut(root, here, skips, budget)
    decreases budget
  {
    if budget == 0 {
      LinkCuts(root, here, skips, loop[0], 0);
    } else {
      LoopCuts(root, here, skips, loop, budget - 1);
      ChainCuts(root, here, skips, loop, budget - 1);
      CutLess(root, here, skips, budget - 1 + |loop|, budget);
    }
  }

  /** The part of a chain between two visits of the same place. */
  lemma LoopOf(root: Disk, here: Disk, skips: Skips, paths: seq<Path>, i: nat, j: nat) returns (there: Disk, loop: seq<Path>)
    requires i < j < |paths| && Chain(root, here, skips, paths) && paths[i] == paths[j]
    ensures Chain(root, here, skips, paths[..i + 1]) && At(root, paths[i]) == Some(there)
    ensures loop != [] && Chain(root, there, skips, loop) && EndOf(root, there, loop) == Some(there)
  {
    ChainSplits(root, here, skips, paths, i);
    there := At(root, paths[i]).value;
    var rest := paths[i + 1..];
    ChainSplits(root, there, skips, rest, j - i - 1);
    loop := rest[..j - i];
    assert loop[j - i - 1] == paths[j];
  }

  lemma CircleCuts(root: Disk, here: Disk, skips: Skips, budget: nat)
    requires Circular(root, here, skips)
    ensures Cut(root, here, skips, budget)
  {
    var paths, i, j :| 0 <= i < j < |paths| && Chain(root, here, skips, paths) && paths[i] == paths[j];
    var there, loop := LoopOf(root, here, skips, paths, i, j);
    LoopCuts(root, there, skips, loop, budget);
    var way := paths[..i + 1];
    assert EndOf(root, here, way) == Some(there);
    ChainCuts(root, here, skips, way, budget);
    CutLess(root, here, skips, budget + i + 1, budget);
  }

  /** The targets of all links of a disk. */
  function Targets(disk: Disk): set<Path> {
    match disk
    case Folder(entries) => set name, path | name in entries && path in Targets(entries[name]) :: path
    case Symlink(_, target) => {target}
    case _ => {}
  }

  lemma {:induction false} TargetsBelow(disk: Disk, path: Path)
    requires At(disk, path).Some?
    ensures Targets(At(disk, path).value) <= Targets(disk)
    decreases |path|
  {
    if path != [] {
      TargetsBelow(disk.entries[path[0]], path[1..]);
    }
  }

  lemma {:induction false} LinkIsTarget(root: Disk, here: Disk, skips: Skips, path: Path)
    requires LinkIn(root, here, skips, path)
    ensures path in Targets(here)
    decreases here
  {
    match here
    case Folder(entries) =>
      var name :| name in entries && !skips(name) && LinkIn(root, entries[name], skips, path);
      LinkIsTarget(root, entries[name], skips, path);
    case Symlink(_, _) =>
  }

  lemma {:induction false} ChainTargets(root: Disk, here: Disk, skips: Skips, paths: seq<Path>)
    requires Chain(root, here, skips, paths) && Targets(here) <= Targets(root)
    ensures forall path :: path in paths ==> path in Targets(root)
    decreases |paths|
  {
    if paths != [] {
      LinkIsTarget(root, here, skips, paths[0]);
      TargetsBelow(root, paths[0]);
      ChainTargets(root, At(root, paths[0]).value, skips, paths[1..]);
    }
  }

  lemma {:induction false} Repeats(paths: seq<Path>, places: set<Path>) returns (i: nat, j: nat)
    requires |paths| > |places| && forall path :: path in paths ==> path in places
    ensures i < j < |paths| && paths[i] == paths[j]
    decreases |paths|
  {
    var first, rest := paths[0], paths[1..];
    if first in rest {
      i := 0;
      var k :| 0 <= k < |rest| && rest[k] == first;
      j := k + 1;
    } else {
      assert first in places;
      assert forall path :: path in rest ==> path in places - {first};
      var k, l := Repeats(rest, places - {first});
      i, j := k + 1, l + 1;
    }
  }

  lemma EndlessIsCircular(root: Disk, start: Path, skips: Skips)
    requires At(root, start).Some? && Cut(root, At(root, start).value, skips, |Targets(root)|)
    ensures Circular(root, At(root, start).value, skips)
  {
    var here := At(root, start).value;
    var paths := CutNeedsChain(root, here, skips, |Targets(root)|);
    TargetsBelow(root, start);
    ChainTargets(root, here, skips, paths);
    var i, j := Repeats(paths, Targets(root));
  }

  /** A walk from `start` ends by itself, within some number of links on each path, exactly if no chain of links comes to the
      same place twice. Then as many links as there are targets on the disk are enough, and the tree it finds does not depend
      on the limit. */
  lemma WalkEndsIffNoCircle(root: Disk, start: Path, skips: Skips)
    requires At(root, start).Some?
    ensures var here := At(root, start).value;
            && ((exists budget :: !Cut(root, here, skips, budget)) <==> !Circular(root, here, skips))
            && (!Circular(root, here, skips) ==>
                  forall budget :: budget >= |Targets(root)| ==>
                    !Cut(root, here, skips, budget) && Seen(root, here, skips, budget) == Seen(root, here, skips, |Targets(root)|))
  {
    var here := At(root, start).value;
    if Circular(root, here, skips) {
      forall budget
        ensures Cut(root, here, skips, budget)
      {
        CircleCuts(root, here, skips, budget);
      }
    } else {
      if Cut(root, here, skips, |Targets(root)|) {
        EndlessIsCircular(root, start, skips);
      }
      var enough: nat := |Targets(root)|;
      assert !Cut(root, here, skips, enough);
      forall budget | budget >= |Targets(root)|
        ensures !Cut(root, here, skips, budget) && Seen(root, here, skips, budget) == Seen(root, here, skips, |Targets(root)|)
      {
        EnoughIsAll(root, here, skips, |Targets(root)|, budget);
      }
    }
  }

  // ---- A folder with a link to itself ----

  function Loop(): Disk { Folder(map["f" := PlainFile([7]), "l" := Symlink(1, [])]) }

  lemma LoopNames()
    ensures !Uncounted("f") && !Uncounted("l") && "f" != "l"
  {
    assert |"f"| == 1 && |"l"| == 1 && "f"[0] != "l"[0];
    assert |ArchivePath.MANIFEST_NAME| == 12;
  }

  lemma LoopIsCircular()
    ensures Circular(Loop(), Loop(), Uncounted)
  {
    LoopNames();
    var paths: seq<Path> := [[], []];
    assert LinkIn(Loop(), Loop().entries["l"], Uncounted, []);
    assert LinkIn(Loop(), Loop(), Uncounted, []);
    assert paths[1..] == [[]] && paths[1..][1..] == [];
    assert Chain(Loop(), Loop(), Uncounted, paths[1..]);
    assert Chain(Loop(), Loop(), Uncounted, paths) && paths[0] == paths[1];
  }

  lemma LoopTree(budget: nat)
    ensures var tree := Seen(Loop(), Loop(), Uncounted, budget);
            && tree.Dir? && tree.entries.Keys == {"f", "l"} && tree.entries["f"] == File([7])
            && tree.entries["l"] == if budget == 0 then Special else Link(1, Seen(Loop(), Loop(), Uncounted, budget - 1))
  {
    LoopNames();
    var loop := Loop();
    assert loop.entries.Keys == {"f", "l"};
    assert loop.entries["f"] == PlainFile([7]) && loop.entries["l"] == Symlink(1, []);
    assert At(loop, []) == Some(loop);
    var tree := Seen(loop, loop, Uncounted, budget);
    assert tree.entries.Keys == {"f", "l"};
    assert tree.entries["f"] == Seen(loop, loop.entries["f"], Uncounted, budget);
    assert tree.entries["l"] == Seen(loop, loop.entries["l"], Uncounted, budget);
  }

  lemma TwoNames(m: Measure, tree: Node)
    requires tree.Dir? && tree.entries.Keys == {"f", "l"}
    ensures TreeSum(m, tree) == Weight(m, "f", tree.entries["f"]) + Weight(m, "l", tree.entries["l"])
  {
    SumWithout(m, tree, {"f", "l"}, "f");
    assert {"f", "l"} - {"f"} == {"l"};
    SumWithout(m, tree, {"l"}, "l");
    assert {"l"} - {"l"} == {};
  }

  lemma {:induction false} LoopSum(m: Measure, budget: nat)
    requires !m.skips("f") && !m.skips("l") && m.folder == 0 && m.file([7]) == 1
    ensures Seen(Loop(), Loop(), Uncounted, budget).Dir? && TreeSum(m, Seen(Loop(), Loop(), Uncounted, budget)) == budget + 1
    decreases budget
  {
    var tree := Seen(Loop(), Loop(), Uncounted, budget);
    LoopTree(budget);
    TwoNames(m, tree);
    assert Weight(m, "f", tree.entries["f"]) == 1;
    if budget > 0 {
      LoopSum(m, budget - 1);
      assert Weight(m, "l", tree.entries["l"]) == TreeSum(m, Seen(Loop(), Loop(), Uncounted, budget - 1));
    }
  }

  /** A folder that holds a file and a link to itself: a walk that may follow `budget` links on one path counts the file
      once more for each of them. */
  lemma CircleCountsAgain(budget: nat)
    ensures Circular(Loop(), Loop(), Uncounted)
    ensures Seen(Loop(), Loop(), Uncounted, budget).Dir? && TotalsOf(Seen(Loop(), Loop(), Uncounted, budget)) == Totals(budget + 1, budget + 1)
  {
    LoopIsCircular();
    LoopNames();
    LoopSum(FileCount(), budget);
    LoopSum(ByteCount(), budget);
  }
}
