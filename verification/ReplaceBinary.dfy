/** Replacing a resource while moving it: staged bytes, a rename with a hook, a rollback, and a fault in any of their steps. */
module ReplaceBinary {
  import opened Bytes
  import opened ArchivePath
  import Manifest

  type Contents = map<string, seq<Byte>>

  datatype FileError =
    | BadPath | VersionConflict | TargetExists | StagingFailed | WriteFailed
    | NameUnchanged | Missing | HookFailed | ParentFailed | MoveFailed
    | Restored | KeptUnderNewName

  // ---- Names ----

  function Normalize(path: string, alnum: char -> bool): Result<string, FileError> {
    match SanitizeRelPath(Manifest.Trim(path), alnum)
    case Err(_) => Err(BadPath)
    case Ok(segs) => if segs == [] then Err(BadPath) else Ok(Join(segs))
  }

  /** `path` up to and with its last slash. */
  function Parent(path: string): (dir: string)
    ensures dir <= path
    ensures forall i :: |dir| <= i < |path| ==> path[i] != '/'
    ensures dir == "" || dir[|dir| - 1] == '/'
  {
    if path == "" || path[|path| - 1] == '/' then path else Parent(path[..|path| - 1])
  }

  /** A hidden sibling of `path`. */
  function StagedName(path: string, nonce: string): string { Parent(path) + ".replace-" + nonce + ".tmp" }

  /** No part of the path begins with a dot. */
  predicate Plain(path: string) { forall i :: 0 <= i < |path| && path[i] == '.' ==> i > 0 && path[i - 1] != '/' }

  lemma {:induction false} SegmentsKept(segs: seq<string>, alnum: char -> bool)
    ensures SanitizeSegments(segs, alnum).Ok? <==> forall i :: 0 <= i < |segs| ==> ValidSegment(segs[i], alnum)
    ensures SanitizeSegments(segs, alnum).Ok? ==> SanitizeSegments(segs, alnum).value == segs
  {
    if segs != [] {
      SegmentsKept(segs[1..], alnum);
      assert forall i :: 0 < i < |segs| ==> segs[i] == segs[1..][i - 1];
    }
  }

  lemma {:induction false} JoinedIsPlain(segs: seq<string>)
    requires |segs| >= 1 && forall i :: 0 <= i < |segs| ==> segs[i] != "" && segs[i][0] != '.' && '/' !in segs[i]
    ensures Plain(Join(segs))
  {
    if |segs| > 1 {
      JoinedIsPlain(segs[1..]);
      var rest := Join(segs[1..]);
      assert Join(segs) == segs[0] + ("/" + rest);
      JoinStarts(segs[1..]);
      forall i | 0 <= i < |Join(segs)| && Join(segs)[i] == '.'
        ensures i > 0 && Join(segs)[i - 1] != '/'
      {
        if i < |segs[0]| {
          assert i > 0 && segs[0][i - 1] in segs[0];
        } else {
          assert rest[i - |segs[0]| - 1] == '.';
        }
      }
    } else {
      forall i | 0 <= i < |segs[0]| && segs[0][i] == '.'
        ensures i > 0 && segs[0][i - 1] != '/'
      {
        assert i > 0 && segs[0][i - 1] in segs[0];
      }
    }
  }

  lemma JoinStarts(segs: seq<string>)
    requires |segs| >= 1 && segs[0] != ""
    ensures Join(segs) != "" && Join(segs)[0] == segs[0][0]
  {}

  /** A path is accepted exactly when, without the white space around it, it is not empty, has no backslash, and each of its
      parts is a valid segment; it stays as it is but for that white space. */
  lemma NormalizeIff(path: string, text: string, alnum: char -> bool)
    requires Manifest.IsTrimOf(path, text)
    ensures Normalize(path, alnum).Ok? <==>
              text != "" && '\\' !in text && forall i :: 0 <= i < |Split(text)| ==> ValidSegment(Split(text)[i], alnum)
    ensures Normalize(path, alnum) == Ok(text) || Normalize(path, alnum) == Err(BadPath)
  {
    Manifest.TrimIff(path, text);
    SegmentsKept(Split(text), alnum);
    SplitSegments(text);
  }

  lemma NormalizedIsPlain(path: string, alnum: char -> bool)
    requires Normalize(path, alnum).Ok?
    ensures Plain(Normalize(path, alnum).value)
  {
    var text := Manifest.Trim(path);
    SegmentsKept(Split(text), alnum);
    SplitSegments(text);
    JoinedIsPlain(Split(text));
  }

  /** Normalising is stable, so a path may pass through it twice. */
  lemma NormalizedStays(path: string, alnum: char -> bool)
    requires Normalize(path, alnum).Ok?
    ensures Normalize(Normalize(path, alnum).value, alnum) == Normalize(path, alnum)
  {
    var text := Manifest.Trim(path);
    SegmentsKept(Split(text), alnum);
    SplitSegments(text);
    Manifest.TrimGives(path);
    Manifest.TrimmedStays(text);
  }

  /** A staged file lies in the directory of the resource. */
  lemma StagedIsBeside(path: string, nonce: string, dir: string, name: string)
    requires path == dir + name && '/' !in name && '/' !in nonce && (dir == "" || dir[|dir| - 1] == '/')
    ensures dir <= StagedName(path, nonce) && '/' !in StagedName(path, nonce)[|dir|..]
    ensures StagedName(path, nonce)[|dir|..] == ".replace-" + nonce + ".tmp"
  {
    var parent := Parent(path);
    assert dir != "" ==> path[|dir| - 1] == '/';
    assert parent != "" ==> path[|parent| - 1] == '/';
    assert forall i :: |dir| <= i < |path| ==> path[i] == name[i - |dir|];
    assert parent == dir;
  }

  /** A staged file has a name no resource can have. */
  lemma StagedIsNoResource(path: string, nonce: string)
    requires '/' !in nonce
    ensures !Plain(StagedName(path, nonce))
  {
    var dir, name := Parent(path), ".replace-" + nonce + ".tmp";
    var staged := StagedName(path, nonce);
    assert staged == dir + name;
    assert staged[|dir|] == '.' && (|dir| > 0 ==> staged[|dir| - 1] == '/');
  }

  // ---- What may go wrong ----

  /** The content hook before a rename: it may rewrite or create other resources, also some before it fails. */
  datatype Hook = Hook(ok: bool, writes: Contents)

  /** Creating the parent directories, one of which may be a file, and the rename itself. */
  datatype MoveFaults = MoveFaults(parents: bool, rename: bool)

  /** Writing the staged file fails before the file appears, or after, when its directory cannot be flushed. */
  datatype StageFault = Staged | NotStaged | StagedNotFlushed

  datatype Faults = Faults(read: bool, stage: StageFault, forth: MoveFaults, publish: bool, back: MoveFaults, cleanup: bool)

  // ---- The resources of one plugin ----

  /** The three places between which the two contents move. */
  datatype Move = Move(from: string, to: string, original: seq<Byte>, replacement: seq<Byte>)

  /** The original is under one of its two names, or the replacement is published. */
  predicate NothingLost(f: Contents, m: Move) {
    || (m.from in f && f[m.from] == m.original)
    || (m.to in f && f[m.to] == m.original)
    || (m.to in f && f[m.to] == m.replacement)
  }

  /** Nothing is lost in any of the states. */
  ghost predicate Safe(states: seq<Contents>, m: Move) {
    states == [] || (NothingLost(states[|states| - 1], m) && Safe(states[..|states| - 1], m))
  }

  lemma {:induction false} SafeAppend(a: seq<Contents>, b: seq<Contents>, m: Move)
    requires Safe(a, m) && Safe(b, m)
    ensures Safe(a + b, m)
  {
    if b == [] {
      assert a + b == a;
    } else {
      assert (a + b)[..|a + b| - 1] == a + b[..|b| - 1];
      SafeAppend(a, b[..|b| - 1], m);
    }
  }

  lemma {:induction false} SafeEverywhere(states: seq<Contents>, m: Move, i: nat)
    requires Safe(states, m) && i < |states|
    ensures NothingLost(states[i], m)
  {
    if i < |states| - 1 {
      SafeEverywhere(states[..|states| - 1], m, i);
    }
  }

  /** The trace has grown by states in which nothing is lost. */
  ghost predicate Grown(before: seq<Contents>, after: seq<Contents>, m: Move) {
    before <= after && Safe(after[|before|..], m)
  }

  lemma GrownTwice(a: seq<Contents>, b: seq<Contents>, c: seq<Contents>, m: Move)
    requires Grown(a, b, m) && Grown(b, c, m)
    ensures Grown(a, c, m)
  {
    assert c[|a|..] == b[|a|..] + c[|b|..];
    SafeAppend(b[|a|..], c[|b|..], m);
  }

  lemma GrownByOne(a: seq<Contents>, f: Contents, m: Move)
    requires NothingLost(f, m)
    ensures Grown(a, a + [f], m)
  {
    assert (a + [f])[|a|..] == [f];
    assert [f][..0] == [];
  }

  /** A hook writes resources other than the ones being moved. */
  predicate Aside(h: Hook, from: string, to: string) { from !in h.writes && to !in h.writes }

  /** Moreover it cannot write a file where a directory is. */
  ghost predicate HarmlessHook(h: Hook, dirs: set<string>, from: string, to: string) {
    Aside(h, from, to) && forall p :: p in h.writes ==> p !in dirs
  }

  /** What the resources are once the hook has run, or has failed. */
  function Rewritten(files: Contents, h: Hook): Contents { files + h.writes }

  function Moved(files: Contents, from: string, to: string): Contents
    requires from in files
  {
    (files - {from})[to := files[from]]
  }

  lemma WithoutAfterHook(files: Contents, h: Hook, s: string)
    requires s !in h.writes
    ensures Rewritten(files, h) - {s} == Rewritten(files - {s}, h)
  {}

  lemma WithoutAfterMove(files: Contents, from: string, to: string, s: string)
    requires from in files && s != from && s != to
    ensures Moved(files, from, to) - {s} == Moved(files - {s}, from, to)
  {}

  lemma ThereAndBack(files: Contents, from: string, to: string, h: Hook)
    requires from in files && to !in files && from != to && from !in h.writes && to !in h.writes
    ensures Moved(Rewritten(Moved(files, from, to), h), to, from) == Rewritten(files, h)
  {}

  /** A rename got as far as its hook and did not move the file. */
  predicate Unmoved(e: FileError) { e.HookFailed? || e.ParentFailed? || e.MoveFailed? }

  /** What stops such a rename. */
  predicate StoppedBy(e: FileError, hook: Hook, faults: MoveFaults) {
    e == if !hook.ok then HookFailed else if faults.parents then ParentFailed else MoveFailed
  }

  /** What is left, besides a staged file that could not be removed, for each way a replacement can end. */
  function Outcome(files: Contents, from: string, to: string, bytes: seq<Byte>, before: Hook, after: Hook, r: Result<(), FileError>): Contents {
    match r
    case Err(VersionConflict) | Err(TargetExists) | Err(StagingFailed) => files
    case Ok(_) => (Rewritten(files, before) - {from})[to := bytes]
    case Err(Restored) => Rewritten(Rewritten(files, before), after)
    case Err(KeptUnderNewName) =>
      if from in files then Rewritten(Moved(Rewritten(files, before), from, to), after) else files
    case Err(_) => Rewritten(files, before)
  }

  /** Success: the old name is gone and the new one has the new bytes. Failure after the move: either the original is
      back and the new name is free, or the original is kept under the new name. Nothing else appears but what a hook wrote,
      and nothing else disappears. */
  lemma OutcomeMeans(files: Contents, from: string, to: string, bytes: seq<Byte>, before: Hook, after: Hook)
    requires from in files && to !in files && from != to && Aside(before, from, to) && Aside(after, from, to)
    ensures var done := Outcome(files, from, to, bytes, before, after, Ok(()));
            from !in done && to in done && done[to] == bytes && done.Keys == files.Keys - {from} + {to} + before.writes.Keys
    ensures var back := Outcome(files, from, to, bytes, before, after, Err(Restored));
            back.Keys == files.Keys + before.writes.Keys + after.writes.Keys && to !in back && back[from] == files[from]
    ensures var kept := Outcome(files, from, to, bytes, before, after, Err(KeptUnderNewName));
            && from !in kept && to in kept && kept[to] == files[from]
            && kept.Keys == files.Keys - {from} + {to} + before.writes.Keys + after.writes.Keys
  {
    var done := Outcome(files, from, to, bytes, before, after, Ok(()));
    var back := Outcome(files, from, to, bytes, before, after, Err(Restored));
    var kept := Outcome(files, from, to, bytes, before, after, Err(KeptUnderNewName));
    DoneMeans(files, from, to, bytes, before, done);
    BackMeans(files, from, to, before, after, back);
    KeptMeans(files, from, to, before, after, kept);
  }

  lemma DoneMeans(files: Contents, from: string, to: string, bytes: seq<Byte>, before: Hook, done: Contents)
    requires from in files && from != to && Aside(before, from, to)
    requires done == (Rewritten(files, before) - {from})[to := bytes]
    ensures from !in done && to in done && done[to] == bytes && done.Keys == files.Keys - {from} + {to} + before.writes.Keys
  {
    KeysRewritten(files, before);
  }

  lemma BackMeans(files: Contents, from: string, to: string, before: Hook, after: Hook, back: Contents)
    requires from in files && to !in files && Aside(before, from, to) && Aside(after, from, to)
    requires back == Rewritten(Rewritten(files, before), after)
    ensures back.Keys == files.Keys + before.writes.Keys + after.writes.Keys && to !in back && back[from] == files[from]
  {
    KeysRewritten(files, before);
    KeysRewritten(Rewritten(files, before), after);
  }

  lemma KeptMeans(files: Contents, from: string, to: string, before: Hook, after: Hook, kept: Contents)
    requires from in files && from != to && Aside(before, from, to) && Aside(after, from, to)
    requires kept == Rewritten(Moved(Rewritten(files, before), from, to), after)
    ensures from !in kept && to in kept && kept[to] == files[from]
            && kept.Keys == files.Keys - {from} + {to} + before.writes.Keys + after.writes.Keys
  {
    KeysRewritten(files, before);
    KeysMoved(Rewritten(files, before), from, to);
    KeysRewritten(Moved(Rewritten(files, before), from, to), after);
  }

  lemma KeysRewritten(files: Contents, h: Hook)
    ensures Rewritten(files, h).Keys == files.Keys + h.writes.Keys
    ensures forall p :: p in files && p !in h.writes ==> Rewritten(files, h)[p] == files[p]
  {}

  lemma KeysMoved(files: Contents, from: string, to: string)
    requires from in files && from != to
    ensures Moved(files, from, to).Keys == files.Keys - {from} + {to} && Moved(files, from, to)[to] == files[from]
  {}

  /** What is there already is written again. */
  predicate Idle(writes: Contents, files: Contents) { forall p :: p in writes ==> p in files && writes[p] == files[p] }

  /** A move that fails, in its hook or after it, leaves both names alone but keeps what the hook wrote: everything is as
      before only if the hook wrote nothing new. */
  lemma FailedMoveKeepsRewrites(files: Contents, from: string, to: string, bytes: seq<Byte>, before: Hook, after: Hook, e: FileError)
    requires from in files && Aside(before, from, to) && Unmoved(e)
    ensures var stuck := Outcome(files, from, to, bytes, before, after, Err(e));
            && stuck.Keys == files.Keys + before.writes.Keys && stuck[from] == files[from] && (to !in files ==> to !in stuck)
            && (stuck == files <==> Idle(before.writes, files))
  {
    WrittenAgain(files, before.writes);
  }

  lemma WrittenAgain(files: Contents, writes: Contents)
    ensures files + writes == files <==> Idle(writes, files)
  {
    if files + writes == files {
      forall p | p in writes
        ensures p in files && writes[p] == files[p]
      {
        assert (files + writes)[p] == writes[p];
      }
    }
  }

  /** The second hook undoes the first: it writes what was there before, and over everything new the first wrote. */
  predicate Undoes(after: Hook, before: Hook, files: Contents) {
    && Idle(after.writes, files)
    && forall p :: p in before.writes && p !in after.writes ==> p in files && before.writes[p] == files[p]
  }

  /** A replacement that reports the original as restored has given it back its name and contents, and has given back its
      references, hence everything, exactly when the second hook undoes the first. A resource the first hook created stays. */
  lemma RestoredIffUndone(files: Contents, from: string, to: string, bytes: seq<Byte>, before: Hook, after: Hook)
    requires from in files && to !in files && Aside(before, from, to) && Aside(after, from, to)
    ensures var back := Outcome(files, from, to, bytes, before, after, Err(Restored));
            && from in back && back[from] == files[from] && to !in back
            && (back == files <==> Undoes(after, before, files))
            && ((exists p :: p in before.writes && p !in files) ==> back != files)
  {
    var back := Outcome(files, from, to, bytes, before, after, Err(Restored));
    assert back == files + (before.writes + after.writes);
    WrittenAgain(files, before.writes + after.writes);
    if Idle(before.writes + after.writes, files) {
      assert forall p :: p in before.writes || p in after.writes ==> p in before.writes + after.writes;
      assert Undoes(after, before, files);
    }
    assert Undoes(after, before, files) ==> Idle(before.writes + after.writes, files);
  }

  lemma OutcomeAfterMove(rest: Contents, from: string, to: string, bytes: seq<Byte>, before: Hook, after: Hook)
    requires from in rest && to !in rest && from != to
    requires from !in before.writes && to !in before.writes && from !in after.writes && to !in after.writes
    ensures var moved := Moved(Rewritten(rest, before), from, to);
            && Outcome(rest, from, to, bytes, before, after, Ok(())) == moved[to := bytes]
            && Outcome(rest, from, to, bytes, before, after, Err(Restored)) == Moved(Rewritten(moved, after), to, from)
            && Outcome(rest, from, to, bytes, before, after, Err(KeptUnderNewName)) == Rewritten(moved, after)
  {
    ThereAndBack(Rewritten(rest, before), from, to, after);
  }

  /** Which result a replacement under a new name has. It is `ready` if the original can be read in the expected version. */
  predicate ResultOf(r: Result<(), FileError>, ready: bool, taken: bool, before: Hook, after: Hook, faults: Faults) {
    var started := ready && !taken && faults.stage.Staged?;
    var moved := started && before.ok && !faults.forth.parents && !faults.forth.rename;
    var restored := moved && faults.publish && after.ok && !faults.back.parents && !faults.back.rename;
    && (r == Err(VersionConflict) <==> !ready)
    && (r == Err(TargetExists) <==> ready && taken)
    && (r == Err(StagingFailed) <==> ready && !taken && !started)
    && (r.Ok? <==> moved && !faults.publish)
    && (r == Err(Restored) <==> restored)
    && (r == Err(KeptUnderNewName) <==> moved && faults.publish && !restored)
    && (started && !moved ==> StoppedBy(r.error, before, faults.forth))
  }

  /** No name is both a file and a directory. */
  predicate Consistent(files: Contents, dirs: set<string>) { forall f :: f in files ==> f !in dirs }

  class Resources {
    const version: seq<Byte> -> string
    const alnum: char -> bool
    var files: Contents
    const dirs: set<string>
    /** Every state of `files` that a crash could leave behind. */
    ghost var trace: seq<Contents>

    ghost predicate Valid()
      reads this
    {
      Consistent(files, dirs)
    }

    constructor (files: Contents, dirs: set<string>, version: seq<Byte> -> string, alnum: char -> bool)
      requires Consistent(files, dirs)
      ensures Valid() && this.files == files && this.dirs == dirs && this.version == version && this.alnum == alnum && trace == []
    {
      this.files, this.dirs, this.version, this.alnum, trace := files, dirs, version, alnum, [];
    }

    predicate Exists(path: string)
      reads this
    {
      path in files || path in dirs
    }

    /** The paths are normalised. The hook runs before the file moves, and nothing undoes it when the move then fails. */
    method Rename(from: string, to: string, hook: Hook, faults: MoveFaults, ghost m: Move) returns (r: Result<(), FileError>)
      requires Valid() && HarmlessHook(hook, dirs, from, to)
      requires NothingLost(Rewritten(files, hook), m)
      requires from in files ==> NothingLost(Moved(Rewritten(files, hook), from, to), m)
      modifies `files, `trace
      ensures Valid()
      ensures var reached := from != to && from in old(files) && !old(Exists(to));
              && (r.Ok? <==> reached && hook.ok && !faults.parents && !faults.rename)
              && (r.Err? && reached ==> StoppedBy(r.error, hook, faults))
              && (r.Err? && !reached ==> r.error == if from == to then NameUnchanged else if from !in old(files) then Missing else TargetExists)
              && files == (if r.Ok? then Moved(Rewritten(old(files), hook), from, to)
                           else if reached then Rewritten(old(files), hook)
                           else old(files))
      ensures Grown(old(trace), trace, m)
    {
      assert trace[|trace|..] == [];
      if from == to {
        return Err(NameUnchanged);
      }
      if from !in files {
        return Err(Missing);
      }
      if Exists(to) {
        return Err(TargetExists);
      }
      Record(files + hook.writes, m);
      if !hook.ok {
        return Err(HookFailed);
      }
      if faults.parents {
        return Err(ParentFailed);
      }
      if faults.rename {
        return Err(MoveFailed);
      }
      ghost var half := trace;
      Record(Moved(files, from, to), m);
      GrownTwice(old(trace), half, trace, m);
      return Ok(());
    }

    /** The resources take on a new state. */
    method Record(next: Contents, ghost m: Move)
      requires Valid() && Consistent(next, dirs) && NothingLost(next, m)
      modifies `files, `trace
      ensures Valid() && files == next && trace == old(trace) + [next] && Grown(old(trace), trace, m)
    {
      GrownByOne(trace, next, m);
      files := next;
      trace := trace + [next];
    }

    /** A conditional write; a file that cannot be read counts as having the empty version. */
    method WriteBinary(path: string, bytes: seq<Byte>, expected: string, unreadable: bool, stage: StageFault)
      returns (r: Result<(), FileError>)
      requires Valid()
      modifies `files, `trace
      ensures Valid()
      ensures var current := if unreadable then "" else if path in old(files) then version(old(files)[path]) else "";
              var matches := path in old(files) && current == expected;
              && (r == Err(VersionConflict) <==> !matches)
              && (r.Ok? <==> matches && stage.Staged?)
              && files == (if matches && !stage.NotStaged? then old(files)[path := bytes] else old(files))
              && trace == old(trace) + (if matches && !stage.NotStaged? then [files] else [])
    {
      if path !in files {
        return Err(VersionConflict);
      }
      var current := if unreadable then "" else version(files[path]);
      if expected != current {
        return Err(VersionConflict);
      }
      if stage.NotStaged? {
        return Err(WriteFailed);
      }
      Record(files[path := bytes], Move(path, path, bytes, bytes));
      return if stage.Staged? then Ok(()) else Err(WriteFailed);
    }

    /** Removal of the staged file, whose failure is ignored. */
    method Discard(staged: string, fault: bool, ghost m: Move)
      requires Valid() && NothingLost(files - {staged}, m) && NothingLost(files, m)
      modifies `files, `trace
      ensures Valid() && Grown(old(trace), trace, m)
      ensures files == if fault then old(files) else old(files) - {staged}
    {
      Record(if fault then files else files - {staged}, m);
    }

    /** Writing the staged file beside the new name. */
    method Stage(staged: string, bytes: seq<Byte>, fault: StageFault, ghost m: Move) returns (ok: bool)
      requires Valid() && !Exists(staged) && NothingLost(files[staged := bytes], m)
      modifies `files, `trace
      ensures Valid()
      ensures ok <==> fault.Staged?
      ensures files == if !fault.NotStaged? then old(files)[staged := bytes] else old(files)
      ensures Grown(old(trace), trace, m)
    {
      assert trace[|trace|..] == [];
      if fault.NotStaged? {
        return false;
      }
      Record(files[staged := bytes], m);
      return fault.Staged?;
    }

    /** After the original has moved: the staged bytes take its place, or its old name is given back. */
    method Publish(staged: string, from: string, to: string, after: Hook, faults: Faults, ghost m: Move)
      returns (r: Result<(), FileError>)
      requires Valid() && from != to && staged != from && staged != to
      requires to in files && staged in files && from !in files && from !in dirs
      requires HarmlessHook(after, dirs, from, to) && staged !in after.writes
      requires m == Move(from, to, files[to], files[staged])
      modifies `files, `trace
      ensures Valid()
      ensures var restored := after.ok && !faults.back.parents && !faults.back.rename;
              r == (if !faults.publish then Ok(()) else if restored then Err(Restored) else Err(KeptUnderNewName))
      ensures var rest := old(files) - {staged};
              files - {staged} == (if r.Ok? then rest[to := old(files)[staged]]
                                   else if r == Err(Restored) then Moved(Rewritten(rest, after), to, from)
                                   else Rewritten(rest, after))
      ensures staged in files ==> faults.publish && faults.cleanup
      ensures Grown(old(trace), trace, m)
    {
      if !faults.publish {
        Record(Moved(files, staged, to), m);
        return Ok(());
      }
      WithoutAfterHook(files, after, staged);
      WithoutAfterMove(Rewritten(files, after), to, from, staged);
      var back := Rename(to, from, after, faults.back, m);
      ghost var moved := trace;
      Discard(staged, faults.cleanup, m);
      GrownTwice(old(trace), moved, trace, m);
      return Err(if back.Ok? then Restored else KeptUnderNewName);
    }

    /** With the new bytes staged: the original moves to the new name, or the staged bytes are discarded. */
    method MoveForth(staged: string, from: string, to: string, before: Hook, faults: Faults, ghost m: Move)
      returns (r: Result<(), FileError>)
      requires Valid() && from != to && staged != from && staged != to
      requires from in files && staged in files && !Exists(to)
      requires HarmlessHook(before, dirs, from, to) && staged !in before.writes
      requires m == Move(from, to, files[from], files[staged])
      modifies `files, `trace
      ensures Valid()
      ensures r.Ok? <==> before.ok && !faults.forth.parents && !faults.forth.rename
      ensures r.Ok? ==> files.Keys == old(files).Keys - {from} + {to} + before.writes.Keys
                        && files[to] == m.original && files[staged] == m.replacement
      ensures r.Err? ==> StoppedBy(r.error, before, faults.forth) && (staged in files ==> faults.cleanup)
      ensures var rest := Rewritten(old(files) - {staged}, before);
              files - {staged} == if r.Ok? then Moved(rest, from, to) else rest
      ensures Grown(old(trace), trace, m)
    {
      WithoutAfterHook(files, before, staged);
      WithoutAfterMove(Rewritten(files, before), from, to, staged);
      r := Rename(from, to, before, faults.forth, m);
      if r.Err? {
        ghost var half := trace;
        Discard(staged, faults.cleanup, m);
        GrownTwice(old(trace), half, trace, m);
      }
    }

    /** The original moves to the new name, then the staged bytes are published there. */
    method MoveAndPublish(staged: string, from: string, to: string, before: Hook, after: Hook, faults: Faults, ghost m: Move)
      returns (r: Result<(), FileError>)
      requires Valid() && from != to && staged != from && staged != to
      requires from in files && staged in files && !Exists(to)
      requires HarmlessHook(before, dirs, from, to) && staged !in before.writes && HarmlessHook(after, dirs, from, to) && staged !in after.writes
      requires m == Move(from, to, files[from], files[staged])
      modifies `files, `trace
      ensures Valid()
      ensures var moved := before.ok && !faults.forth.parents && !faults.forth.rename;
              var restored := moved && faults.publish && after.ok && !faults.back.parents && !faults.back.rename;
              && (r.Ok? <==> moved && !faults.publish)
              && (r == Err(Restored) <==> restored)
              && (r == Err(KeptUnderNewName) <==> moved && faults.publish && !restored)
              && (!moved ==> StoppedBy(r.error, before, faults.forth))
      ensures files - {staged} == Outcome(old(files) - {staged}, from, to, old(files)[staged], before, after, r)
      ensures staged in files ==> r.Err? && faults.cleanup
      ensures Grown(old(trace), trace, m)
    {
      OutcomeAfterMove(files - {staged}, from, to, files[staged], before, after);
      r := MoveForth(staged, from, to, before, faults, m);
      if r.Ok? {
        ghost var half := trace;
        r := Publish(staged, from, to, after, faults, m);
        GrownTwice(old(trace), half, trace, m);
      }
    }

    /** Replacing `from` by `bytes` under the name `to`; `before` runs ahead of the move, `after` ahead of the way back. */
    method Replace(from: string, to: string, nonce: string, bytes: seq<Byte>, expected: string, before: Hook, after: Hook, faults: Faults)
      returns (r: Result<(), FileError>)
      requires Valid() && from != to && Plain(from) && Plain(to) && '/' !in nonce && !Exists(StagedName(to, nonce))
      requires HarmlessHook(before, dirs, from, to) && HarmlessHook(after, dirs, from, to)
      requires StagedName(to, nonce) !in before.writes && StagedName(to, nonce) !in after.writes
      modifies `files, `trace
      ensures Valid()
      ensures var ready := from in old(files) && !faults.read && version(old(files)[from]) == expected;
              ResultOf(r, ready, old(Exists(to)), before, after, faults)
      ensures files - {StagedName(to, nonce)} == Outcome(old(files), from, to, bytes, before, after, r)
      ensures StagedName(to, nonce) in files ==> r.Err? && (faults.cleanup || faults.stage.StagedNotFlushed?)
      ensures if from in old(files) then Grown(old(trace), trace, Move(from, to, old(files)[from], bytes)) else trace == old(trace)
    {
      var staged := StagedName(to, nonce);
      StagedIsNoResource(to, nonce);
      assert trace[|trace|..] == [];
      assert files - {staged} == files;
      if from !in files || faults.read || version(files[from]) != expected {
        return Err(VersionConflict);
      }
      if Exists(to) {
        return Err(TargetExists);
      }
      ghost var m := Move(from, to, files[from], bytes);
      var ok := Stage(staged, bytes, faults.stage, m);
      assert files - {staged} == old(files);
      if !ok {
        return Err(StagingFailed);
      }
      ghost var half := trace;
      r := MoveAndPublish(staged, from, to, before, after, faults, m);
      GrownTwice(old(trace), half, trace, m);
    }

    /** The operation on the paths as given; replacing a resource under its own name is a conditional write. */
    method ReplaceBinary(oldPath: string, newPath: string, nonce: string, bytes: seq<Byte>, expected: string,
                         before: Hook, after: Hook, faults: Faults)
      returns (r: Result<(), FileError>)
      requires Valid() && '/' !in nonce
      requires var from, to := Normalize(oldPath, alnum), Normalize(newPath, alnum);
               from.Ok? && to.Ok? ==>
                 && !Exists(StagedName(to.value, nonce))
                 && HarmlessHook(before, dirs, from.value, to.value) && HarmlessHook(after, dirs, from.value, to.value)
                 && StagedName(to.value, nonce) !in before.writes && StagedName(to.value, nonce) !in after.writes
      modifies `files, `trace
      ensures Valid() && old(trace) <= trace
      ensures var from, to := Normalize(oldPath, alnum), Normalize(newPath, alnum);
              if from.Err? || to.Err? then r == Err(BadPath) && files == old(files) && trace == old(trace)
              else if from.value == to.value then
                var current := if faults.read then "" else if from.value in old(files) then version(old(files)[from.value]) else "";
                var matches := from.value in old(files) && current == expected;
                && (r == Err(VersionConflict) <==> !matches)
                && (r.Ok? <==> matches && faults.stage.Staged?)
                && files == (if matches && !faults.stage.NotStaged? then old(files)[from.value := bytes] else old(files))
              else
                var ready := from.value in old(files) && !faults.read && version(old(files)[from.value]) == expected;
                && ResultOf(r, ready, old(Exists(to.value)), before, after, faults)
                && files - {StagedName(to.value, nonce)} == Outcome(old(files), from.value, to.value, bytes, before, after, r)
                && (StagedName(to.value, nonce) in files ==> r.Err? && (faults.cleanup || faults.stage.StagedNotFlushed?))
                && (from.value in old(files) ==>
                      Grown(old(trace), trace, Move(from.value, to.value, old(files)[from.value], bytes)))
    {
      var from, to := Normalize(oldPath, alnum), Normalize(newPath, alnum);
      if from.Err? || to.Err? {
        return Err(BadPath);
      }
      if from.value == to.value {
        r := WriteBinary(from.value, bytes, expected, faults.read, faults.stage);
        return;
      }
      NormalizedIsPlain(oldPath, alnum);
      NormalizedIsPlain(newPath, alnum);
      r := Replace(from.value, to.value, nonce, bytes, expected, before, after, faults);
    }
  }

  /** A resource "a" is to be replaced as "b"; the hook rewrites the reference to it in "ref", and the move then fails. The
      resource is still "a", yet "ref" has lost its old contents. */
  method RewriteOutlivesFailedMove() returns (r: Result<(), FileError>, before: Contents, after: Contents)
    ensures r.Err? && Unmoved(r.error)
    ensures before == map["a" := [1], "ref" := [2]] && after == map["a" := [1], "ref" := [3]]
  {
    before := map["a" := [1], "ref" := [2]];
    var works, fails := MoveFaults(false, false), MoveFaults(false, true);
    r, after := ReplaceSample(before, Faults(false, Staged, fails, false, works, false));
  }

  /** The same hook; now publishing fails and the way back succeeds, without a rewrite of its own. The replacement reports
      the original as restored, yet "ref" has lost its old contents. */
  method RewriteOutlivesRestoring() returns (r: Result<(), FileError>, before: Contents, after: Contents)
    ensures r == Err(Restored)
    ensures before == map["a" := [1], "ref" := [2]] && after == map["a" := [1], "ref" := [3]]
  {
    before := map["a" := [1], "ref" := [2]];
    var works := MoveFaults(false, false);
    r, after := ReplaceSample(before, Faults(false, Staged, works, true, works, false));
  }

  /** Replaces "a" by "b", with a hook that rewrites "ref" and one that does nothing; the original stays or comes back. */
  method ReplaceSample(files: Contents, faults: Faults) returns (r: Result<(), FileError>, after: Contents)
    requires files == map["a" := [1], "ref" := [2]] && !faults.read && faults.stage.Staged? && !faults.cleanup
    requires faults.forth == MoveFaults(false, true) || (faults.forth == faults.back == MoveFaults(false, false) && faults.publish)
    ensures r.Err? && (if faults.forth.rename then Unmoved(r.error) else r.error == Restored)
    ensures after == map["a" := [1], "ref" := [3]]
  {
    var resources := new Resources(files, {}, (data: seq<Byte>) => "v", (c: char) => true);
    StagedIsNoResource("b", "0");
    PlainExamples();
    var hook, idle := Hook(true, map["ref" := [3]]), Hook(true, map[]);
    r := resources.Replace("a", "b", "0", [4], "v", hook, idle, faults);
    after := resources.files;
    SampleOutcome(files, hook, idle, r);
    NothingStaged(after, StagedName("b", "0"), map["a" := [1], "ref" := [3]]);
  }

  lemma SampleOutcome(files: Contents, hook: Hook, idle: Hook, r: Result<(), FileError>)
    requires files == map["a" := [1], "ref" := [2]] && hook.writes == map["ref" := [3]] && idle.writes == map[]
    requires r.Err? && (Unmoved(r.error) || r.error == Restored)
    ensures Outcome(files, "a", "b", [4], hook, idle, r) == map["a" := [1], "ref" := [3]]
  {
    assert files + hook.writes == map["a" := [1], "ref" := [3]];
    assert files + hook.writes + idle.writes == files + hook.writes;
  }

  lemma NothingStaged(after: Contents, staged: string, files: Contents)
    requires after - {staged} == files && staged !in after
    ensures after == files
  {}

  lemma PlainExamples()
    ensures Plain("a") && Plain("b") && Plain("ref")
  {}
}
