/** Package directories as trees: counting their files with an explicit stack, copying them, and statistics. */
module FileTree {
  import opened Bytes
  import opened Sorting
  import ArchivePath

  /** `Link` is a symbolic link of some length of its own, with what it names; `Special` is anything else that is neither a
      regular file nor a directory, a dangling link included. A directory has no order of its own: every walk picks the next
      name freely. */
  datatype Node = File(data: seq<Byte>) | Special | Dir(entries: map<string, Node>) | Link(length: nat, target: Node)

  /** What a path leads to when its links are followed. */
  function Followed(node: Node): (r: Node)
    ensures !r.Link? && (r == node || r < node) && (!node.Link? ==> r == node)
  {
    if node.Link? then Followed(node.target) else node
  }

  predicate Hidden(name: string) { name != "" && name[0] == '.' }

  predicate Uncounted(name: string) { Hidden(name) || name == ArchivePath.MANIFEST_NAME }

  // ---- Sums over a tree ----

  /** What a sum over a tree adds up: which names it skips, what a file, a link to a file and a directory contribute. */
  datatype Measure = Measure(skips: string -> bool, file: seq<Byte> -> nat, link: (nat, seq<Byte>) -> nat, folder: nat)

  function FileCount(): Measure { Measure(Uncounted, (d: seq<Byte>) => 1, (n: nat, d: seq<Byte>) => 1, 0) }

  /** A link counts with its own length. */
  function ByteCount(): Measure { Measure(Uncounted, (d: seq<Byte>) => |d|, (n: nat, d: seq<Byte>) => n, 0) }

  function FolderCount(): Measure { Measure(Uncounted, (d: seq<Byte>) => 0, (n: nat, d: seq<Byte>) => 0, 1) }

  /** The links to files alone: what they count, and what their files would. */
  function LinkCount(): Measure { Measure(Uncounted, (d: seq<Byte>) => 0, (n: nat, d: seq<Byte>) => n, 0) }

  function LinkedCount(): Measure { Measure(Uncounted, (d: seq<Byte>) => 0, (n: nat, d: seq<Byte>) => |d|, 0) }

  ghost function Weight(m: Measure, name: string, node: Node): nat
    decreases node, 1, 0
  {
    if m.skips(name) then 0
    else match Followed(node)
      case File(data) => if node.Link? then m.link(node.length, data) else m.file(data)
      case Dir(entries) => m.folder + SumOver(m, Followed(node), entries.Keys)
      case _ => 0
  }

  /** The contribution of the named entries of a directory, with everything below them. */
  ghost function SumOver(m: Measure, dir: Node, names: set<string>): nat
    requires dir.Dir? && names <= dir.entries.Keys
    decreases dir, 0, |names|
  {
    if names == {} then 0
    else
      var name :| name in names;
      Weight(m, name, dir.entries[name]) + SumOver(m, dir, names - {name})
  }

  ghost function TreeSum(m: Measure, dir: Node): nat
    requires dir.Dir?
  {
    SumOver(m, dir, dir.entries.Keys)
  }

  lemma {:induction false} SumWithout(m: Measure, dir: Node, names: set<string>, x: string)
    requires dir.Dir? && names <= dir.entries.Keys && x in names
    ensures SumOver(m, dir, names) == Weight(m, x, dir.entries[x]) + SumOver(m, dir, names - {x})
    decreases |names|
  {
    var name :| name in names && SumOver(m, dir, names) == Weight(m, name, dir.entries[name]) + SumOver(m, dir, names - {name});
    if name != x {
      SumWithout(m, dir, names - {name}, x);
      SumWithout(m, dir, names - {x}, name);
      assert names - {name} - {x} == names - {x} - {name};
    }
  }

  /** What `x` weighs among the named entries; a name that is not there weighs nothing. */
  ghost function WeightIn(m: Measure, dir: Node, names: set<string>, x: string): nat
    requires dir.Dir? && names <= dir.entries.Keys
  {
    if x in names then Weight(m, x, dir.entries[x]) else 0
  }

  lemma SumSplit(m: Measure, dir: Node, names: set<string>, x: string)
    requires dir.Dir? && names <= dir.entries.Keys
    ensures SumOver(m, dir, names) == WeightIn(m, dir, names, x) + SumOver(m, dir, names - {x})
  {
    if x in names {
      SumWithout(m, dir, names, x);
    } else {
      assert names - {x} == names;
    }
  }

  ghost predicate Agree(m: Measure, a: Node, xs: set<string>, m': Measure, b: Node, ys: set<string>)
    requires a.Dir? && xs <= a.entries.Keys && b.Dir? && ys <= b.entries.Keys
  {
    forall x :: x in xs + ys ==> WeightIn(m, a, xs, x) == WeightIn(m', b, ys, x)
  }

  lemma AgreeWithout(m: Measure, a: Node, xs: set<string>, m': Measure, b: Node, ys: set<string>, x: string)
    requires a.Dir? && xs <= a.entries.Keys && b.Dir? && ys <= b.entries.Keys
    requires Agree(m, a, xs, m', b, ys)
    ensures Agree(m, a, xs - {x}, m', b, ys - {x})
  {
    forall y | y in xs - {x} + (ys - {x})
      ensures WeightIn(m, a, xs - {x}, y) == WeightIn(m', b, ys - {x}, y)
    {
      assert WeightIn(m, a, xs, y) == WeightIn(m', b, ys, y);
    }
  }

  lemma {:induction false} SumsAgree(m: Measure, a: Node, xs: set<string>, m': Measure, b: Node, ys: set<string>)
    requires a.Dir? && xs <= a.entries.Keys && b.Dir? && ys <= b.entries.Keys
    requires Agree(m, a, xs, m', b, ys)
    ensures SumOver(m, a, xs) == SumOver(m', b, ys)
    decreases |xs + ys|
  {
    if xs + ys == {} {
      assert xs == {} && ys == {};
    } else {
      var x :| x in xs + ys;
      SumSplit(m, a, xs, x);
      SumSplit(m', b, ys, x);
      AgreeWithout(m, a, xs, m', b, ys, x);
      assert xs - {x} + (ys - {x}) == xs + ys - {x};
      SumsAgree(m, a, xs - {x}, m', b, ys - {x});
    }
  }

  // ---- Counting with a stack ----

  datatype Totals = Totals(files: nat, bytes: nat)

  ghost predicate Folders(stack: seq<Node>) { forall i :: 0 <= i < |stack| ==> stack[i].Dir? }

  ghost function Waiting(m: Measure, stack: seq<Node>): nat
    requires Folders(stack)
  {
    if stack == [] then 0
    else
      var n := |stack| - 1;
      m.folder + TreeSum(m, stack[n]) + Waiting(m, stack[..n])
  }

  ghost function TotalsOf(dir: Node): Totals
    requires dir.Dir?
  {
    Totals(TreeSum(FileCount(), dir), TreeSum(ByteCount(), dir))
  }

  /** One more file in a directory counts once, with its bytes, unless its name begins with a dot or is that of the manifest. */
  lemma AddedFile(dir: Node, name: string, data: seq<Byte>)
    requires dir.Dir? && name !in dir.entries
    ensures var skipped := (name != "" && name[0] == '.') || name == "package.toml";
            var before, after := TotalsOf(dir), TotalsOf(Dir(dir.entries[name := File(data)]));
            after == if skipped then before else Totals(before.files + 1, before.bytes + |data|)
  {
    AddedWeight(FileCount(), dir, name, data);
    AddedWeight(ByteCount(), dir, name, data);
  }

  lemma AddedWeight(m: Measure, dir: Node, name: string, data: seq<Byte>)
    requires dir.Dir? && name !in dir.entries
    ensures TreeSum(m, Dir(dir.entries[name := File(data)])) == TreeSum(m, dir) + if m.skips(name) then 0 else m.file(data)
  {
    var after := Dir(dir.entries[name := File(data)]);
    SumWithout(m, after, after.entries.Keys, name);
    var names := dir.entries.Keys;
    assert after.entries.Keys - {name} == names;
    assert Agree(m, after, names, m, dir, names);
    SumsAgree(m, after, names, m, dir, names);
  }

  lemma Pushed(m: Measure, stack: seq<Node>, dir: Node)
    requires Folders(stack) && dir.Dir?
    ensures Folders(stack + [dir]) && Waiting(m, stack + [dir]) == m.folder + TreeSum(m, dir) + Waiting(m, stack)
  {
    assert (stack + [dir])[..|stack|] == stack;
  }

  /** What has been counted, what waits on the stack and what is left of the directory make up the whole. */
  ghost predicate Balanced(m: Measure, dir: Node, left: set<string>, stack: seq<Node>, counted: nat, whole: nat)
    requires dir.Dir? && left <= dir.entries.Keys && Folders(stack)
  {
    counted + Waiting(m, stack) + SumOver(m, dir, left) == whole
  }

  lemma StepSkips(m: Measure, dir: Node, left: set<string>, stack: seq<Node>, counted: nat, whole: nat, name: string)
    requires dir.Dir? && left <= dir.entries.Keys && Folders(stack) && name in left
    requires Balanced(m, dir, left, stack, counted, whole) && Weight(m, name, dir.entries[name]) == 0
    ensures Balanced(m, dir, left - {name}, stack, counted, whole)
  {
    SumWithout(m, dir, left, name);
  }

  lemma StepCounts(m: Measure, dir: Node, left: set<string>, stack: seq<Node>, counted: nat, whole: nat, name: string)
    requires dir.Dir? && left <= dir.entries.Keys && Folders(stack) && name in left
    requires Balanced(m, dir, left, stack, counted, whole)
    ensures Balanced(m, dir, left - {name}, stack, counted + Weight(m, name, dir.entries[name]), whole)
  {
    SumWithout(m, dir, left, name);
  }

  lemma StepPushes(m: Measure, dir: Node, left: set<string>, stack: seq<Node>, counted: nat, whole: nat, name: string)
    requires dir.Dir? && left <= dir.entries.Keys && Folders(stack) && name in left
    requires Balanced(m, dir, left, stack, counted, whole) && !m.skips(name) && Followed(dir.entries[name]).Dir?
    ensures var path := Followed(dir.entries[name]);
            Folders(stack + [path]) && Balanced(m, dir, left - {name}, stack + [path], counted, whole)
  {
    SumWithout(m, dir, left, name);
    Pushed(m, stack, Followed(dir.entries[name]));
  }

  /** One directory: its files are counted at once, its subdirectories go on the stack. */
  method ReadDirectory(dir: Node, stack: seq<Node>, t: Totals) returns (stack': seq<Node>, t': Totals)
    requires dir.Dir? && Folders(stack)
    ensures Folders(stack')
    ensures t'.files + Waiting(FileCount(), stack') == t.files + TreeSum(FileCount(), dir) + Waiting(FileCount(), stack)
    ensures t'.bytes + Waiting(ByteCount(), stack') == t.bytes + TreeSum(ByteCount(), dir) + Waiting(ByteCount(), stack)
    ensures Waiting(FolderCount(), stack') == TreeSum(FolderCount(), dir) + Waiting(FolderCount(), stack)
  {
    stack', t' := stack, t;
    var left := dir.entries.Keys;
    ghost var files := t.files + TreeSum(FileCount(), dir) + Waiting(FileCount(), stack);
    ghost var bytes := t.bytes + TreeSum(ByteCount(), dir) + Waiting(ByteCount(), stack);
    ghost var folders := TreeSum(FolderCount(), dir) + Waiting(FolderCount(), stack);
    while left != {}
      invariant left <= dir.entries.Keys && Folders(stack')
      invariant Balanced(FileCount(), dir, left, stack', t'.files, files)
      invariant Balanced(ByteCount(), dir, left, stack', t'.bytes, bytes)
      invariant Balanced(FolderCount(), dir, left, stack', 0, folders)
      decreases |left|
    {
      var name :| name in left;
      if Uncounted(name) {
        StepSkips(FileCount(), dir, left, stack', t'.files, files, name);
        StepSkips(ByteCount(), dir, left, stack', t'.bytes, bytes, name);
        StepSkips(FolderCount(), dir, left, stack', 0, folders, name);
        left := left - {name};
        continue;
      }
      var node := dir.entries[name];
      var path := Followed(node);
      if path.Dir? {
        StepPushes(FileCount(), dir, left, stack', t'.files, files, name);
        StepPushes(ByteCount(), dir, left, stack', t'.bytes, bytes, name);
        StepPushes(FolderCount(), dir, left, stack', 0, folders, name);
        stack' := stack' + [path];
      } else {
        StepCounts(FileCount(), dir, left, stack', t'.files, files, name);
        StepCounts(ByteCount(), dir, left, stack', t'.bytes, bytes, name);
        StepCounts(FolderCount(), dir, left, stack', 0, folders, name);
        if path.File? {
          var length := if node.Link? then node.length else |path.data|;
          t' := Totals(t'.files + 1, t'.bytes + length);
        }
      }
      left := left - {name};
    }
  }

  /** The walk with an explicit stack returns the recursive sums, in whatever order the names are listed. */
  method DirTotals(root: Node) returns (t: Totals)
    requires root.Dir?
    ensures t == TotalsOf(root)
  {
    t := Totals(0, 0);
    var stack := [root];
    Pushed(FileCount(), [], root);
    Pushed(ByteCount(), [], root);
    assert [] + [root] == [root];
    while stack != []
      invariant Folders(stack)
      invariant t.files + Waiting(FileCount(), stack) == TreeSum(FileCount(), root)
      invariant t.bytes + Waiting(ByteCount(), stack) == TreeSum(ByteCount(), root)
      decreases Waiting(FolderCount(), stack)
    {
      var current := stack[|stack| - 1];
      stack := stack[..|stack| - 1];
      stack, t := ReadDirectory(current, stack, t);
    }
  }

  // ---- Copying ----

  /** Neither hidden names nor special nodes are copied, at any depth, and links are followed. */
  function Copied(node: Node): (r: Node)
    ensures !r.Link? && (r.Dir? <==> Followed(node).Dir?)
  {
    match Followed(node)
    case Dir(entries) =>
      Dir(map name | name in entries && !Hidden(name) && !Followed(entries[name]).Special? :: Copied(entries[name]))
    case n => n
  }

  lemma CopiedEntry(dir: Node, name: string)
    requires dir.Dir?
    ensures name in Copied(dir).entries <==> name in dir.entries && !Hidden(name) && !Followed(dir.entries[name]).Special?
    ensures name in Copied(dir).entries ==> Copied(dir).entries[name] == Copied(Followed(dir.entries[name]))
  {}

  /** The copies of all entries but those in `left`. */
  ghost function CopiedSoFar(src: Node, left: set<string>): map<string, Node>
    requires src.Dir?
  {
    map name | name in Copied(src).entries && name !in left :: Copied(src).entries[name]
  }

  lemma OneMoreCopied(src: Node, left: set<string>, name: string)
    requires src.Dir? && name in left && name in src.entries
    ensures CopiedSoFar(src, left - {name}) ==
              if Hidden(name) || Followed(src.entries[name]).Special? then CopiedSoFar(src, left)
              else CopiedSoFar(src, left)[name := Copied(Followed(src.entries[name]))]
  {
    CopiedEntry(src, name);
    var before, after := CopiedSoFar(src, left), CopiedSoFar(src, left - {name});
    assert after.Keys == before.Keys + (if name in Copied(src).entries then {name} else {});
  }

  /** Copies into a directory that does not exist yet. */
  method CopyDirContents(src: Node) returns (dst: Node)
    requires src.Dir?
    ensures dst == Copied(src)
    decreases src
  {
    var entries: map<string, Node> := map[];
    var left := src.entries.Keys;
    while left != {}
      invariant left <= src.entries.Keys && entries == CopiedSoFar(src, left)
      decreases |left|
    {
      var name :| name in left;
      OneMoreCopied(src, left, name);
      left := left - {name};
      if Hidden(name) {
        continue;
      }
      var path := Followed(src.entries[name]);
      if path.Dir? {
        var copy := CopyDirContents(path);
        entries := entries[name := copy];
      } else if path.File? {
        entries := entries[name := File(path.data)];
      }
    }
    assert CopiedSoFar(src, {}) == Copied(src).entries;
    dst := Dir(entries);
  }

  /** `whole` is like `m`, but weighs a link like the file it leads to. */
  ghost predicate FollowsLinks(m: Measure, whole: Measure) {
    && (forall name :: m.skips(name) == whole.skips(name)) && m.folder == whole.folder
    && (forall data :: m.file(data) == whole.file(data)) && forall n, data :: whole.link(n, data) == m.file(data)
  }

  lemma CopiedWeight(m: Measure, whole: Measure, dir: Node, name: string)
    requires dir.Dir? && name in dir.entries && (Hidden(name) ==> m.skips(name)) && FollowsLinks(m, whole)
    requires var path := Followed(dir.entries[name]); path.Dir? ==> TreeSum(m, Copied(path)) == TreeSum(whole, path)
    ensures WeightIn(m, Copied(dir), Copied(dir).entries.Keys, name) == WeightIn(whole, dir, dir.entries.Keys, name)
  {
    CopiedEntry(dir, name);
  }

  /** A sum over a copy that does not look at hidden names is the sum over the original with every link followed. */
  lemma {:induction false} CopyKeepsSum(m: Measure, whole: Measure, dir: Node)
    requires dir.Dir? && FollowsLinks(m, whole) && forall name :: Hidden(name) ==> m.skips(name)
    ensures TreeSum(m, Copied(dir)) == TreeSum(whole, dir)
    decreases dir
  {
    var copy := Copied(dir);
    var xs, ys := copy.entries.Keys, dir.entries.Keys;
    forall x | x in xs + ys
      ensures WeightIn(m, copy, xs, x) == WeightIn(whole, dir, ys, x)
    {
      if Followed(dir.entries[x]).Dir? {
        CopyKeepsSum(m, whole, Followed(dir.entries[x]));
      }
      CopiedWeight(m, whole, dir, x);
    }
    SumsAgree(m, copy, xs, whole, dir, ys);
  }

  // ---- What links change ----

  /** The links to files below `dir` are together as long as those files. */
  ghost predicate LinksWeighTheirFiles(dir: Node)
    requires dir.Dir?
  {
    TreeSum(LinkCount(), dir) == TreeSum(LinkedCount(), dir)
  }

  /** `c` weighs like `a` and `b` together. */
  ghost predicate IsSum(a: Measure, b: Measure, c: Measure) {
    && (forall name :: a.skips(name) == b.skips(name) == c.skips(name)) && a.folder + b.folder == c.folder
    && (forall data :: a.file(data) + b.file(data) == c.file(data))
    && forall n, data :: a.link(n, data) + b.link(n, data) == c.link(n, data)
  }

  lemma {:induction false} SumsAdd(a: Measure, b: Measure, c: Measure, dir: Node, names: set<string>)
    requires dir.Dir? && names <= dir.entries.Keys && IsSum(a, b, c)
    ensures SumOver(a, dir, names) + SumOver(b, dir, names) == SumOver(c, dir, names)
    decreases dir, |names|
  {
    if names != {} {
      var x :| x in names;
      SumWithout(a, dir, names, x);
      SumWithout(b, dir, names, x);
      SumWithout(c, dir, names, x);
      SumsAdd(a, b, c, dir, names - {x});
      var path := Followed(dir.entries[x]);
      if path.Dir? {
        SumsAdd(a, b, c, path, path.entries.Keys);
      }
    }
  }

  function PlainCount(): Measure { Measure(Uncounted, (d: seq<Byte>) => |d|, (n: nat, d: seq<Byte>) => 0, 0) }

  function FollowedCount(): Measure { Measure(Uncounted, (d: seq<Byte>) => |d|, (n: nat, d: seq<Byte>) => |d|, 0) }

  lemma CopiedTotals(dir: Node)
    requires dir.Dir?
    ensures TreeSum(FileCount(), Copied(dir)) == TreeSum(FileCount(), dir)
    ensures TreeSum(ByteCount(), Copied(dir)) == TreeSum(FollowedCount(), dir)
  {
    var files, bytes, followed := FileCount(), ByteCount(), FollowedCount();
    assert FollowsLinks(files, files);
    assert FollowsLinks(bytes, followed);
    CopyKeepsSum(files, files, dir);
    CopyKeepsSum(bytes, followed, dir);
  }

  /** Links counted with their own length, besides everything else. */
  lemma BytesAdd(dir: Node)
    requires dir.Dir?
    ensures TreeSum(PlainCount(), dir) + TreeSum(LinkCount(), dir) == TreeSum(ByteCount(), dir)
  {
    var a, b, c := PlainCount(), LinkCount(), ByteCount();
    assert IsSum(a, b, c);
    SumsAdd(a, b, c, dir, dir.entries.Keys);
  }

  /** Links counted like their files, besides everything else. */
  lemma FollowedAdd(dir: Node)
    requires dir.Dir?
    ensures TreeSum(PlainCount(), dir) + TreeSum(LinkedCount(), dir) == TreeSum(FollowedCount(), dir)
  {
    var a, b, c := PlainCount(), LinkedCount(), FollowedCount();
    assert IsSum(a, b, c);
    SumsAdd(a, b, c, dir, dir.entries.Keys);
  }

  /** A copy has the file count of its source, and its byte sum exactly when the links of the source are together as long as
      the files they lead to. */
  lemma CopyKeepsTotalsIff(dir: Node)
    requires dir.Dir?
    ensures TotalsOf(Copied(dir)).files == TotalsOf(dir).files
    ensures TotalsOf(Copied(dir)) == TotalsOf(dir) <==> LinksWeighTheirFiles(dir)
  {
    CopiedTotals(dir);
    BytesAdd(dir);
    FollowedAdd(dir);
  }

  // ---- Statistics ----

  datatype PluginStats = PluginStats(plugin: string, totals: Totals)
  datatype Stats = Stats(totals: Totals, plugins: seq<PluginStats>)

  /** The directory that holds the plugins, if there is one. */
  function PluginsDir(root: Node): (r: Node)
    ensures r.Dir?
  {
    if root.Dir? && "plugins" in root.entries && Followed(root.entries["plugins"]).Dir? then Followed(root.entries["plugins"])
    else Dir(map[])
  }

  predicate IsPluginDir(root: Node, plugin: string) {
    var dir := PluginsDir(root);
    plugin in dir.entries && Followed(dir.entries[plugin]).Dir? && ArchivePath.ValidScopeId(plugin)
  }

  function PluginDir(root: Node, plugin: string): (r: Node)
    requires IsPluginDir(root, plugin)
    ensures r.Dir?
  {
    Followed(PluginsDir(root).entries[plugin])
  }

  ghost predicate ListsPlugin(root: Node, p: PluginStats) {
    IsPluginDir(root, p.plugin) && p.totals == TotalsOf(PluginDir(root, p.plugin))
  }

  function PluginKey(): PluginStats -> string { (p: PluginStats) => p.plugin }

  /** The statistics of a package: its totals, and in order of their ids the totals of exactly its plugin directories. */
  ghost predicate IsStats(root: Node, s: Stats)
    requires root.Dir?
  {
    && s.totals == TotalsOf(root)
    && Ascends(s.plugins, PluginKey())
    && forall p :: p in s.plugins <==> ListsPlugin(root, p)
  }

  method CollectPlugins(root: Node) returns (plugins: seq<PluginStats>)
    requires root.Dir?
    ensures DistinctKeys(plugins, PluginKey())
    ensures forall p :: p in plugins <==> ListsPlugin(root, p)
  {
    plugins := [];
    if !("plugins" in root.entries && Followed(root.entries["plugins"]).Dir?) {
      return;
    }
    var dir := Followed(root.entries["plugins"]);
    var left := dir.entries.Keys;
    while left != {}
      invariant left <= dir.entries.Keys
      invariant DistinctKeys(plugins, PluginKey())
      invariant forall p :: p in plugins <==> ListsPlugin(root, p) && p.plugin !in left
      decreases |left|
    {
      var name :| name in left;
      left := left - {name};
      if ArchivePath.ValidScopeId(name) && Followed(dir.entries[name]).Dir? {
        var totals := DirTotals(Followed(dir.entries[name]));
        forall i | 0 <= i < |plugins|
          ensures plugins[i].plugin != name
        {
          assert plugins[i] in plugins;
        }
        plugins := plugins + [PluginStats(name, totals)];
      }
    }
  }

  method PackageStatistics(root: Node) returns (s: Stats)
    requires root.Dir?
    ensures IsStats(root, s)
  {
    var plugins := CollectPlugins(root);
    SortAscends(plugins, PluginKey());
    forall p
      ensures p in SortBy(plugins, PluginKey()) <==> p in plugins
    {
      SortHasSame(plugins, PluginKey(), p);
    }
    var totals := DirTotals(root);
    s := Stats(totals, SortBy(plugins, PluginKey()));
  }

  /** A copied package with a new manifest. */
  function DuplicateTree(root: Node, manifest: seq<Byte>): Node
    requires root.Dir?
  {
    Dir(Copied(root).entries[ArchivePath.MANIFEST_NAME := File(manifest)])
  }

  lemma ManifestWeighsNothing(m: Measure, dir: Node, manifest: Node)
    requires dir.Dir? && m.skips(ArchivePath.MANIFEST_NAME)
    ensures TreeSum(m, Dir(dir.entries[ArchivePath.MANIFEST_NAME := manifest])) == TreeSum(m, dir)
  {
    var after := Dir(dir.entries[ArchivePath.MANIFEST_NAME := manifest]);
    var xs, ys := after.entries.Keys, dir.entries.Keys;
    forall x | x in xs + ys
      ensures WeightIn(m, after, xs, x) == WeightIn(m, dir, ys, x)
    {}
    SumsAgree(m, after, xs, m, dir, ys);
  }

  lemma PluginsName()
    ensures "plugins" != ArchivePath.MANIFEST_NAME && !Hidden("plugins")
  {
    assert |"plugins"| == 7;
  }

  lemma DuplicatePlugins(root: Node, manifest: seq<Byte>, plugin: string)
    requires root.Dir?
    ensures IsPluginDir(DuplicateTree(root, manifest), plugin) <==> IsPluginDir(root, plugin)
    ensures IsPluginDir(root, plugin) ==> PluginDir(DuplicateTree(root, manifest), plugin) == Copied(PluginDir(root, plugin))
  {
    PluginsName();
    CopiedEntry(root, "plugins");
    CopiedEntry(PluginsDir(root), plugin);
  }

  /** In the package and in each of its plugins, the links to files are together as long as the files. */
  ghost predicate LinksWeighTheirFilesEverywhere(root: Node)
    requires root.Dir?
  {
    LinksWeighTheirFiles(root) && forall plugin :: IsPluginDir(root, plugin) ==> LinksWeighTheirFiles(PluginDir(root, plugin))
  }

  lemma ListedAgain(root: Node, manifest: seq<Byte>, plugin: string)
    requires root.Dir? && IsPluginDir(root, plugin)
    ensures ListsPlugin(DuplicateTree(root, manifest), PluginStats(plugin, TotalsOf(PluginDir(root, plugin)))) <==>
              LinksWeighTheirFiles(PluginDir(root, plugin))
  {
    DuplicatePlugins(root, manifest, plugin);
    CopyKeepsTotalsIff(PluginDir(root, plugin));
  }

  lemma DuplicateTotals(root: Node, manifest: seq<Byte>)
    requires root.Dir?
    ensures TotalsOf(DuplicateTree(root, manifest)) == TotalsOf(Copied(root))
  {
    ManifestWeighsNothing(FileCount(), Copied(root), File(manifest));
    ManifestWeighsNothing(ByteCount(), Copied(root), File(manifest));
  }

  /** A duplicated package has the file counts of its source, although hidden files stayed behind; and it has all its
      statistics, overall and per plugin, exactly when in the package and in each plugin the links to files are together as
      long as the files: a link counts with its own length, and is copied as the file it leads to. */
  lemma DuplicateKeepsStatsIff(root: Node, manifest: seq<Byte>, before: Stats, after: Stats)
    requires root.Dir? && IsStats(root, before) && IsStats(DuplicateTree(root, manifest), after)
    ensures after.totals.files == before.totals.files
    ensures after == before <==> LinksWeighTheirFilesEverywhere(root)
  {
    DuplicateTotals(root, manifest);
    CopyKeepsTotalsIff(root);
    if LinksWeighTheirFilesEverywhere(root) {
      forall p
        ensures p in before.plugins <==> p in after.plugins
      {
        DuplicatePlugins(root, manifest, p.plugin);
        if IsPluginDir(root, p.plugin) {
          CopyKeepsTotalsIff(PluginDir(root, p.plugin));
        }
      }
      AscendingIsUnique(before.plugins, after.plugins, PluginKey());
    }
    if after == before {
      forall plugin | IsPluginDir(root, plugin)
        ensures LinksWeighTheirFiles(PluginDir(root, plugin))
      {
        assert PluginStats(plugin, TotalsOf(PluginDir(root, plugin))) in before.plugins;
        ListedAgain(root, manifest, plugin);
      }
    }
  }

  /** A package that holds a link of length 1 to a file of two bytes: its duplicate is a byte larger. */
  lemma LinkedDuplicateGrows(manifest: seq<Byte>)
    ensures var root := Dir(map["l" := Link(1, File([7, 7]))]);
            TotalsOf(root) == Totals(1, 1) && TotalsOf(DuplicateTree(root, manifest)) == Totals(1, 2)
  {
    var root := Dir(map["l" := Link(1, File([7, 7]))]);
    DuplicateTotals(root, manifest);
    OnlyEntry(root, "l");
    CopiedEntry(root, "l");
    assert Copied(root).entries.Keys == {"l"};
    OnlyEntry(Copied(root), "l");
  }

  lemma OnlyEntry(dir: Node, name: string)
    requires dir.Dir? && dir.entries.Keys == {name} && !Uncounted(name) && Followed(dir.entries[name]).File?
    ensures TotalsOf(dir) == Totals(Weight(FileCount(), name, dir.entries[name]), Weight(ByteCount(), name, dir.entries[name]))
  {
    SumWithout(FileCount(), dir, {name}, name);
    SumWithout(ByteCount(), dir, {name}, name);
    assert {name} - {name} == {};
  }
}
