/** Collecting the files of a package for export: a recursive walk in whatever order the names are listed. */
module Collecting {
  import opened Bytes
  import opened ArchivePath
  import opened FileTree

  /** A file to export, by its path inside the package. */
  datatype Found = Found(path: Path, data: seq<Byte>)

  function Name(f: Found): string { if f.path == [] then "" else Join(f.path) }

  function NameKey(): Found -> string { (f: Found) => Name(f) }

  function Lookup(node: Node, path: Path): Option<Node>
    decreases |path|
  {
    if path == [] then Some(node)
    else if node.Dir? && path[0] in node.entries then Lookup(node.entries[path[0]], path[1..])
    else None
  }

  /** Names the walk passes over: hidden ones, and at the top the manifest and the media directory. */
  predicate PassedOver(name: string, top: bool) { Hidden(name) || (top && (name == MANIFEST_NAME || name == "media")) }

  predicate Listable(path: Path, top: bool) {
    path != [] && !PassedOver(path[0], top) && forall i :: 0 < i < |path| ==> !Hidden(path[i])
  }

  /** `f` is a file of the package that belongs into its archive. */
  predicate IsListed(root: Node, f: Found) { Listable(f.path, true) && Lookup(root, f.path) == Some(File(f.data)) }

  /** The files of a package that belong into its archive are all regular ones except hidden ones, those in a hidden
      directory, the manifest and the media directory at the top. */
  lemma ListedMeans(root: Node, f: Found)
    ensures IsListed(root, f) <==>
              && f.path != [] && (forall i :: 0 <= i < |f.path| ==> f.path[i] == "" || f.path[i][0] != '.')
              && f.path[0] != "package.toml" && f.path[0] != "media" && Lookup(root, f.path) == Some(File(f.data))
  {
    if f.path != [] && Hidden(f.path[0]) {
      assert f.path[0] != "" && f.path[0][0] == '.';
    }
  }

  ghost predicate DistinctPaths(files: seq<Found>) { forall i, j :: 0 <= i < j < |files| ==> files[i].path != files[j].path }

  predicate Under(prefix: Path, path: Path) { |path| > |prefix| && prefix <= path }

  predicate ListedBelow(dir: Node, prefix: Path, f: Found) {
    && Under(prefix, f.path)
    && Listable(f.path[|prefix|..], prefix == []) && Lookup(dir, f.path[|prefix|..]) == Some(File(f.data))
  }

  /** Some node the walk would have to leave out is neither a file nor a directory. */
  ghost predicate HasSpecial(dir: Node, top: bool) { exists q :: SpecialAt(dir, top, q) }

  /** The walk does not follow links. */
  predicate Irregular(node: Node) { node.Special? || node.Link? }

  predicate SpecialAt(dir: Node, top: bool, q: Path) { Listable(q, top) && Lookup(dir, q).Some? && Irregular(Lookup(dir, q).value) }

  lemma ListableTail(q: Path, top: bool)
    requires |q| > 1
    ensures Listable(q, top) <==> !PassedOver(q[0], top) && Listable(q[1..], false)
  {
    assert forall i :: 0 < i < |q| - 1 ==> q[1..][i] == q[i + 1];
    assert q[1..][0] == q[1];
    if Listable(q[1..], false) {
      forall i | 0 < i < |q|
        ensures !Hidden(q[i])
      {
        assert i > 1 ==> q[1..][i - 1] == q[i];
      }
    }
  }

  /** What lies below the entry `name`, seen from its directory and from itself. */
  lemma BelowChild(dir: Node, prefix: Path, name: string, f: Found)
    requires dir.Dir? && name in dir.entries && !PassedOver(name, prefix == [])
    requires Under(prefix, f.path) && f.path[|prefix|] == name
    ensures ListedBelow(dir, prefix, f) <==>
              match dir.entries[name] {
                case Dir(_) => ListedBelow(dir.entries[name], prefix + [name], f)
                case File(data) => f == Found(prefix + [name], data)
                case _ => false }
  {
    var q := f.path[|prefix|..];
    assert q[0] == name && q[1..] == f.path[|prefix| + 1..];
    if |q| == 1 {
      assert f.path == prefix + [name];
      assert Lookup(dir, q) == Some(dir.entries[name]);
    } else {
      ListableTail(q, prefix == []);
      assert f.path[..|prefix| + 1] == prefix + [name];
      assert Lookup(dir.entries[name], q[1..]) == Lookup(dir, q);
    }
  }

  lemma SpecialBelow(dir: Node, top: bool, name: string, q: Path)
    requires dir.Dir? && name in dir.entries && !PassedOver(name, top) && q != [] && q[0] == name
    ensures SpecialAt(dir, top, q) <==>
              match dir.entries[name] {
                case Dir(_) => |q| > 1 && SpecialAt(dir.entries[name], false, q[1..])
                case File(_) => false
                case _ => q == [name] }
  {
    if |q| > 1 {
      ListableTail(q, top);
      assert Lookup(dir, q) == Lookup(dir.entries[name], q[1..]);
    } else {
      assert q == [name] && q[1..] == [];
      assert Lookup(dir, q) == Some(dir.entries[name]);
    }
  }

  /** How far the walk through one directory has come: the names in `left` are still to do. */
  ghost predicate Walked(dir: Node, prefix: Path, left: set<string>, out: seq<Found>, found: seq<Found>) {
    && DistinctPaths(found)
    && (forall f :: f in found <==> f in out || (ListedBelow(dir, prefix, f) && f.path[|prefix|] !in left))
    && forall q :: SpecialAt(dir, prefix == [], q) ==> q[0] in left
  }

  lemma PassOver(dir: Node, prefix: Path, left: set<string>, out: seq<Found>, found: seq<Found>, name: string)
    requires Walked(dir, prefix, left, out, found) && PassedOver(name, prefix == [])
    ensures Walked(dir, prefix, left - {name}, out, found)
  {}

  ghost predicate NothingUnder(prefix: Path, files: seq<Found>) { forall f :: f in files ==> !Under(prefix, f.path) }

  lemma PrefixAndName(prefix: Path, name: string, path: Path)
    ensures prefix + [name] <= path ==> Under(prefix, path) && path[|prefix|] == name
  {
    if prefix + [name] <= path {
      assert path[..|prefix|] == (prefix + [name])[..|prefix|];
      assert path[|prefix|] == (prefix + [name])[|prefix|];
    }
  }

  lemma NothingYet(dir: Node, prefix: Path, left: set<string>, out: seq<Found>, found: seq<Found>, name: string)
    requires Walked(dir, prefix, left, out, found) && name in left && NothingUnder(prefix, out)
    ensures NothingUnder(prefix + [name], found) && forall f :: f in found ==> f.path != prefix + [name]
  {
    forall f | f in found
      ensures !Under(prefix + [name], f.path) && f.path != prefix + [name]
    {
      PrefixAndName(prefix, name, f.path);
    }
  }

  lemma FileAdded(dir: Node, prefix: Path, left: set<string>, out: seq<Found>, found: seq<Found>, name: string)
    requires dir.Dir? && name in dir.entries && dir.entries[name].File? && !PassedOver(name, prefix == [])
    requires Walked(dir, prefix, left, out, found) && name in left && NothingUnder(prefix, out)
    ensures Walked(dir, prefix, left - {name}, out, found + [Found(prefix + [name], dir.entries[name].data)])
  {
    NothingYet(dir, prefix, left, out, found, name);
    var added := Found(prefix + [name], dir.entries[name].data);
    forall f
      ensures f in found + [added] <==> f in out || (ListedBelow(dir, prefix, f) && f.path[|prefix|] !in left - {name})
    {
      if Under(prefix, f.path) && f.path[|prefix|] == name {
        BelowChild(dir, prefix, name, f);
      }
    }
    forall i | 0 <= i < |found|
      ensures found[i].path != added.path
    {
      assert found[i] in found;
    }
    forall q | SpecialAt(dir, prefix == [], q)
      ensures q[0] in left - {name}
    {
      if q[0] == name { SpecialBelow(dir, prefix == [], name, q); }
    }
  }

  lemma DirAdded(dir: Node, prefix: Path, left: set<string>, out: seq<Found>, found: seq<Found>, name: string, more: seq<Found>)
    requires dir.Dir? && name in dir.entries && dir.entries[name].Dir? && !PassedOver(name, prefix == [])
    requires Walked(dir, prefix, left, out, found) && name in left && NothingUnder(prefix, out)
    requires DistinctPaths(more) && forall f :: f in more <==> f in found || ListedBelow(dir.entries[name], prefix + [name], f)
    requires !HasSpecial(dir.entries[name], false)
    ensures Walked(dir, prefix, left - {name}, out, more)
  {
    forall f
      ensures f in more <==> f in out || (ListedBelow(dir, prefix, f) && f.path[|prefix|] !in left - {name})
    {
      if Under(prefix, f.path) && f.path[|prefix|] == name {
        BelowChild(dir, prefix, name, f);
      }
      PrefixAndName(prefix, name, f.path);
    }
    forall q | SpecialAt(dir, prefix == [], q)
      ensures q[0] in left - {name}
    {
      if q[0] == name { SpecialBelow(dir, prefix == [], name, q); }
    }
  }

  /** Collects the listable files below `dir`, which is found at `prefix`; a node that is neither a file nor a directory
      is refused rather than left out. */
  method CollectDir(dir: Node, prefix: Path, out: seq<Found>) returns (r: Option<seq<Found>>)
    requires dir.Dir? && DistinctPaths(out) && NothingUnder(prefix, out)
    ensures r.Some? <==> !HasSpecial(dir, prefix == [])
    ensures r.Some? ==> DistinctPaths(r.value) && forall f :: f in r.value <==> f in out || ListedBelow(dir, prefix, f)
    decreases dir
  {
    var found := out;
    var left := dir.entries.Keys;
    while left != {}
      invariant left <= dir.entries.Keys && Walked(dir, prefix, left, out, found)
      decreases |left|
    {
      var name :| name in left;
      if PassedOver(name, prefix == []) {
        PassOver(dir, prefix, left, out, found, name);
        left := left - {name};
        continue;
      }
      NothingYet(dir, prefix, left, out, found, name);
      match dir.entries[name] {
        case Dir(_) =>
          var more := CollectDir(dir.entries[name], prefix + [name], found);
          if more == None {
            SpecialSeen(dir, prefix == [], name);
            return None;
          }
          DirAdded(dir, prefix, left, out, found, name, more.value);
          found := more.value;
        case File(data) =>
          FileAdded(dir, prefix, left, out, found, name);
          found := found + [Found(prefix + [name], data)];
        case _ =>
          SpecialBelow(dir, prefix == [], name, [name]);
          assert SpecialAt(dir, prefix == [], [name]);
          return None;
      }
      left := left - {name};
    }
    return Some(found);
  }

  lemma SpecialSeen(dir: Node, top: bool, name: string)
    requires dir.Dir? && name in dir.entries && dir.entries[name].Dir? && !PassedOver(name, top)
    requires HasSpecial(dir.entries[name], false)
    ensures HasSpecial(dir, top)
  {
    var q :| SpecialAt(dir.entries[name], false, q);
    SpecialBelow(dir, top, name, [name] + q);
    assert ([name] + q)[1..] == q;
  }
}
