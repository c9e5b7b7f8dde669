/** The incremental Delta log against a full replay of its commits. */
module DeltaLog {
  import opened ByteStrings
  import opened Sequences

  datatype SplitFile = SplitFile(objectKey: Str, size: int, records: int)

  datatype Version = Version(version: int, watermark: int, splits: seq<SplitFile>)

  datatype File = File(path: Str, size: int, records: int)

  datatype Action =
    | Protocol
    | MetaData(createdTime: int)
    | Add(file: File, time: int)
    | Remove(path: Str, size: int, time: int)

  const SLASH: byte := 47

  /** The object key relative to the table path, if it lies below it. */
  function RelPath(objectKey: Str, tablePath: Str): Str {
    var prefix := tablePath + [SLASH];
    if prefix <= objectKey then objectKey[|prefix|..] else objectKey
  }

  function FilesOf(splits: seq<SplitFile>, tablePath: Str): (r: seq<File>)
    ensures |r| == |splits|
  {
    seq(|splits|, i requires 0 <= i < |splits| =>
      File(RelPath(splits[i].objectKey, tablePath), splits[i].size, splits[i].records))
  }

  function Paths(files: seq<File>): set<Str> {
    set f | f in files :: f.path
  }

  /** The adds for the files whose path is not in `known`. */
  function Adds(files: seq<File>, known: set<Str>, time: int): seq<Action> {
    if files == [] then []
    else
      var f := files[|files| - 1];
      Adds(files[..|files| - 1], known, time) + (if f.path in known then [] else [Add(f, time)])
  }

  /** The removes for the files whose path is not in `kept`. */
  function Removes(files: seq<File>, kept: set<Str>, time: int): seq<Action> {
    if files == [] then []
    else
      var f := files[|files| - 1];
      Removes(files[..|files| - 1], kept, time) + (if f.path in kept then [] else [Remove(f.path, f.size, time)])
  }

  /** What the emitter remembers. */
  datatype State = State(commits: seq<seq<Action>>, files: seq<File>, committed: int)

  const START := State([], [], 0)

  /** The actions of the commit for `files`. */
  function Commit(s: State, files: seq<File>, time: int): seq<Action> {
    if s.commits == [] then [Protocol, MetaData(time)] + Adds(files, {}, time)
    else Adds(files, Paths(s.files), time) + Removes(s.files, Paths(files), time)
  }

  function Register(s: State, v: Version, tablePath: Str): State {
    var files := FilesOf(v.splits, tablePath);
    var commit := Commit(s, files, v.watermark);
    if s.committed >= v.version then s
    else if commit == [] then s.(committed := v.version)
    else State(s.commits + [commit], files, v.version)
  }

  function RegisterAll(versions: seq<Version>, tablePath: Str): State {
    if versions == [] then START
    else Register(RegisterAll(versions[..|versions| - 1], tablePath), versions[|versions| - 1], tablePath)
  }

  class Log {
    const tablePath: Str
    var commits: seq<seq<Action>>
    var prevFiles: seq<File>
    var committedVersion: int

    ghost function Model(): State
      reads this
    {
      State(commits, prevFiles, committedVersion)
    }

    constructor (tablePath: Str)
      ensures Model() == START && this.tablePath == tablePath
    {
      this.tablePath, commits, prevFiles, committedVersion := tablePath, [], [], 0;
    }

    method RegisterVersion(snap: Version)
      modifies this
      ensures Model() == Register(old(Model()), snap, tablePath)
    {
      if committedVersion >= snap.version {
        return;
      }
      var files := CollectFiles(snap.splits);
      var time := snap.watermark;
      var actions: seq<Action>;
      if commits == [] {
        var added := CollectAdds(files, {}, time);
        actions := [Protocol, MetaData(time)] + added;
      } else {
        var curPaths := CollectPaths(files);
        var prevPaths := CollectPaths(prevFiles);
        var added := CollectAdds(files, prevPaths, time);
        var removed := CollectRemoves(prevFiles, curPaths, time);
        actions := added + removed;
        if actions == [] {
          committedVersion := snap.version;
          return;
        }
      }
      commits, prevFiles, committedVersion := commits + [actions], files, snap.version;
    }

    method CollectFiles(splits: seq<SplitFile>) returns (files: seq<File>)
      ensures files == FilesOf(splits, tablePath)
    {
      files := [];
      var i := 0;
      while i < |splits|
        invariant 0 <= i <= |splits|
        invariant files == FilesOf(splits, tablePath)[..i]
      {
        files := files + [File(RelPath(splits[i].objectKey, tablePath), splits[i].size, splits[i].records)];
        i := i + 1;
      }
    }
  }

  method CollectPaths(files: seq<File>) returns (paths: set<Str>)
    ensures paths == Paths(files)
  {
    paths := {};
    var i := 0;
    while i < |files|
      invariant 0 <= i <= |files|
      invariant paths == Paths(files[..i])
    {
      PathsStep(files, i);
      paths := paths + {files[i].path};
      i := i + 1;
    }
    assert files[..i] == files;
  }

  lemma PathsStep(files: seq<File>, i: nat)
    requires i < |files|
    ensures Paths(files[..i + 1]) == Paths(files[..i]) + {files[i].path}
  {
    assert files[..i + 1] == files[..i] + [files[i]];
  }

  method CollectAdds(files: seq<File>, known: set<Str>, time: int) returns (body: seq<Action>)
    ensures body == Adds(files, known, time)
  {
    body := [];
    var i := 0;
    while i < |files|
      invariant 0 <= i <= |files|
      invariant body == Adds(files[..i], known, time)
    {
      assert files[..i + 1][..i] == files[..i];
      if files[i].path !in known {
        body := body + [Add(files[i], time)];
      }
      i := i + 1;
    }
    assert files[..i] == files;
  }

  method CollectRemoves(files: seq<File>, kept: set<Str>, time: int) returns (body: seq<Action>)
    ensures body == Removes(files, kept, time)
  {
    body := [];
    var i := 0;
    while i < |files|
      invariant 0 <= i <= |files|
      invariant body == Removes(files[..i], kept, time)
    {
      assert files[..i + 1][..i] == files[..i];
      if files[i].path !in kept {
        body := body + [Remove(files[i].path, files[i].size, time)];
      }
      i := i + 1;
    }
    assert files[..i] == files;
  }

  // Replay, by the action reconciliation rules of the Delta Lake protocol.

  type Table = map<Str, File>

  function Apply(table: Table, a: Action): Table {
    match a
    case Add(file, _) => table[file.path := file]
    case Remove(path, _, _) => table - {path}
    case _ => table
  }

  function ApplyAll(table: Table, actions: seq<Action>): Table {
    if actions == [] then table else Apply(ApplyAll(table, actions[..|actions| - 1]), actions[|actions| - 1])
  }

  function Replay(commits: seq<seq<Action>>): Table {
    if commits == [] then map[] else ApplyAll(Replay(commits[..|commits| - 1]), commits[|commits| - 1])
  }

  lemma {:induction false} ApplyAppend(table: Table, a: seq<Action>, b: seq<Action>)
    ensures ApplyAll(table, a + b) == ApplyAll(ApplyAll(table, a), b)
  {
    if b == [] {
      assert a + b == a;
    } else {
      ApplyAppend(table, a, b[..|b| - 1]);
      assert (a + b)[..|a + b| - 1] == a + b[..|b| - 1];
    }
  }

  lemma ApplySnoc(table: Table, actions: seq<Action>, a: Action)
    ensures ApplyAll(table, actions + [a]) == Apply(ApplyAll(table, actions), a)
  {
    assert (actions + [a])[..|actions|] == actions;
  }

  lemma PathsSnoc(files: seq<File>)
    requires files != []
    ensures Paths(files) == Paths(files[..|files| - 1]) + {files[|files| - 1].path}
  {
    PathsStep(files, |files| - 1);
    assert files[..|files|] == files;
  }

  /** Adding only makes new paths live. */
  lemma {:induction false} ApplyAdds(table: Table, files: seq<File>, known: set<Str>, time: int)
    requires table.Keys <= known
    ensures ApplyAll(table, Adds(files, known, time)).Keys == table.Keys + (Paths(files) - known)
  {
    if files != [] {
      var before, f := files[..|files| - 1], files[|files| - 1];
      ApplyAdds(table, before, known, time);
      PathsSnoc(files);
      hide Paths;
      if f.path !in known {
        ApplySnoc(table, Adds(before, known, time), Add(f, time));
      } else {
        assert Adds(files, known, time) == Adds(before, known, time);
      }
    }
  }

  lemma {:induction false} ApplyRemoves(table: Table, files: seq<File>, kept: set<Str>, time: int)
    ensures ApplyAll(table, Removes(files, kept, time)) == table - (Paths(files) - kept)
  {
    if files == [] {
      assert Paths(files) == {};
    } else {
      var before, f := files[..|files| - 1], files[|files| - 1];
      ApplyRemoves(table, before, kept, time);
      PathsSnoc(files);
      hide Paths;
      if f.path !in kept {
        ApplySnoc(table, Removes(before, kept, time), Remove(f.path, f.size, time));
      } else {
        assert Removes(files, kept, time) == Removes(before, kept, time);
      }
    }
  }

  /** The remembered files are the live paths of the log. */
  ghost predicate Inv(s: State) {
    Replay(s.commits).Keys == Paths(s.files) && (s.commits == [] ==> s.files == [])
  }

  lemma Header(table: Table, time: int)
    ensures ApplyAll(table, [Protocol, MetaData(time)]) == table
    ensures Clean(table, [Protocol, MetaData(time)])
  {
    assert [Protocol, MetaData(time)] == [] + [Protocol] + [MetaData(time)];
    ApplySnoc(table, [], Protocol);
    ApplySnoc(table, [] + [Protocol], MetaData(time));
    CleanSnoc(table, [], Protocol);
    CleanSnoc(table, [] + [Protocol], MetaData(time));
  }

  lemma CommitReplays(s: State, files: seq<File>, time: int)
    requires Inv(s)
    ensures ApplyAll(Replay(s.commits), Commit(s, files, time)).Keys == Paths(files)
  {
    var table := Replay(s.commits);
    if s.commits == [] {
      ApplyAppend(table, [Protocol, MetaData(time)], Adds(files, {}, time));
      Header(table, time);
      ApplyAdds(table, files, {}, time);
    } else {
      var adds, removes := Adds(files, Paths(s.files), time), Removes(s.files, Paths(files), time);
      ApplyAppend(table, adds, removes);
      ApplyAdds(table, files, Paths(s.files), time);
      ApplyRemoves(ApplyAll(table, adds), s.files, Paths(files), time);
    }
  }

  lemma ReplaySnoc(commits: seq<seq<Action>>, commit: seq<Action>)
    ensures Replay(commits + [commit]) == ApplyAll(Replay(commits), commit)
  {
    assert (commits + [commit])[..|commits|] == commits;
  }

  /** A version is accepted if its number is above all earlier ones and above 0; the newest is the last accepted. */
  function Highest(versions: seq<Version>): int {
    if versions == [] then 0
    else
      var rest, last := Highest(versions[..|versions| - 1]), versions[|versions| - 1].version;
      if last > rest then last else rest
  }

  function NewestFiles(versions: seq<Version>, tablePath: Str): seq<File> {
    if versions == [] then []
    else
      var rest, last := versions[..|versions| - 1], versions[|versions| - 1];
      if last.version > Highest(rest) then FilesOf(last.splits, tablePath) else NewestFiles(rest, tablePath)
  }

  lemma RegisterKeepsInv(s: State, v: Version, tablePath: Str)
    requires Inv(s)
    ensures var next := Register(s, v, tablePath);
            && Inv(next)
            && next.committed == (if v.version > s.committed then v.version else s.committed)
            && (v.version > s.committed ==> Replay(next.commits).Keys == Paths(FilesOf(v.splits, tablePath)))
            && (v.version <= s.committed ==> next == s)
  {
    hide Paths, FilesOf, Commit, Replay;
    var files := FilesOf(v.splits, tablePath);
    var commit := Commit(s, files, v.watermark);
    CommitReplays(s, files, v.watermark);
    ReplaySnoc(s.commits, commit);
  }

  /** Replaying all commits yields the path set of the newest accepted version. */
  lemma {:induction false} ReplayGivesNewest(versions: seq<Version>, tablePath: Str)
    ensures var s := RegisterAll(versions, tablePath);
            && Inv(s)
            && s.committed == Highest(versions)
            && Replay(s.commits).Keys == Paths(NewestFiles(versions, tablePath))
  {
    if versions == [] {
      assert Paths([]) == {};
    } else {
      var before, last := versions[..|versions| - 1], versions[|versions| - 1];
      ReplayGivesNewest(before, tablePath);
      hide Register, Inv, Replay, Paths;
      RegisterKeepsInv(RegisterAll(before, tablePath), last, tablePath);
    }
  }

  // The actions of a commit.

  lemma {:induction false} AddsMean(files: seq<File>, known: set<Str>, time: int, a: Action)
    ensures a in Adds(files, known, time) <==> a.Add? && a.time == time && a.file in files && a.file.path !in known
  {
    if files != [] {
      AddsMean(files[..|files| - 1], known, time, a);
      assert files == files[..|files| - 1] + [files[|files| - 1]];
    }
  }

  lemma {:induction false} RemovesMean(files: seq<File>, kept: set<Str>, time: int, a: Action)
    ensures a in Removes(files, kept, time) <==>
            a.Remove? && a.time == time && exists f | f in files :: f.path == a.path && f.size == a.size && f.path !in kept
  {
    if files != [] {
      RemovesMean(files[..|files| - 1], kept, time, a);
      assert files == files[..|files| - 1] + [files[|files| - 1]];
    }
  }

  /** Actions follow the order of the files. */
  lemma {:induction false} AddsFollowFiles(a: seq<File>, b: seq<File>, known: set<Str>, time: int)
    ensures Adds(a + b, known, time) == Adds(a, known, time) + Adds(b, known, time)
  {
    if b == [] {
      assert a + b == a;
    } else {
      var before, f := b[..|b| - 1], b[|b| - 1];
      AddsFollowFiles(a, before, known, time);
      assert (a + b)[..|a + b| - 1] == a + before && (a + b)[|a + b| - 1] == f;
      AppendAssociative(Adds(a, known, time), Adds(before, known, time), if f.path in known then [] else [Add(f, time)]);
    }
  }

  lemma {:induction false} RemovesFollowFiles(a: seq<File>, b: seq<File>, kept: set<Str>, time: int)
    ensures Removes(a + b, kept, time) == Removes(a, kept, time) + Removes(b, kept, time)
  {
    if b == [] {
      assert a + b == a;
    } else {
      var before, f := b[..|b| - 1], b[|b| - 1];
      RemovesFollowFiles(a, before, kept, time);
      assert (a + b)[..|a + b| - 1] == a + before && (a + b)[|a + b| - 1] == f;
      AppendAssociative(Removes(a, kept, time), Removes(before, kept, time),
                        if f.path in kept then [] else [Remove(f.path, f.size, time)]);
    }
  }

  /**
    * Every action of a commit has the watermark of its version as its time.  The first commit is the protocol, the
    * metadata and every file; a later one the files with a new path, followed by the files whose path is gone, with the
    * size they had.
    */
  lemma CommitMeans(s: State, files: seq<File>, time: int, a: Action)
    ensures s.commits == [] ==>
              Commit(s, files, time)[..2] == [Protocol, MetaData(time)]
              && (a in Commit(s, files, time)[2..] <==> a.Add? && a.time == time && a.file in files)
    ensures s.commits != [] ==>
              (a in Commit(s, files, time) <==>
               && (a.Add? || a.Remove?) && a.time == time
               && (a.Add? ==> a.file in files && forall f | f in s.files :: f.path != a.file.path)
               && (a.Remove? ==>
                     && (exists f | f in s.files :: f.path == a.path && f.size == a.size)
                     && forall f | f in files :: f.path != a.path))
    ensures var commit := Commit(s, files, time);
            forall i, j | 0 <= i < j < |commit| && commit[i].Remove? :: commit[j].Remove?
  {
    AddsMean(files, {}, time, a);
    AddsMean(files, Paths(s.files), time, a);
    RemovesMean(s.files, Paths(files), time, a);
    assert ([Protocol, MetaData(time)] + Adds(files, {}, time))[2..] == Adds(files, {}, time);
    forall x: Action
      ensures x in Adds(files, {}, time) || x in Adds(files, Paths(s.files), time) ==> x.Add?
      ensures x in Removes(s.files, Paths(files), time) ==> x.Remove?
    {
      AddsMean(files, {}, time, x);
      AddsMean(files, Paths(s.files), time, x);
      RemovesMean(s.files, Paths(files), time, x);
    }
  }

  // No live path is added again and no dead path is removed.

  predicate Clean(table: Table, actions: seq<Action>) {
    actions == [] ||
    var before, last := actions[..|actions| - 1], actions[|actions| - 1];
    && Clean(table, before)
    && (last.Add? ==> last.file.path !in ApplyAll(table, before))
    && (last.Remove? ==> last.path in ApplyAll(table, before))
  }

  /** Every path outside `known` occurs at most once. */
  predicate Once(files: seq<File>, known: set<Str>) {
    files == [] ||
    var before, last := files[..|files| - 1], files[|files| - 1];
    Once(before, known) && (last.path in known || last.path !in Paths(before))
  }

  lemma CleanSnoc(table: Table, actions: seq<Action>, a: Action)
    ensures Clean(table, actions + [a]) <==>
            && Clean(table, actions)
            && (a.Add? ==> a.file.path !in ApplyAll(table, actions))
            && (a.Remove? ==> a.path in ApplyAll(table, actions))
  {
    assert (actions + [a])[..|actions|] == actions;
  }

  lemma {:induction false} CleanAppend(table: Table, a: seq<Action>, b: seq<Action>)
    ensures Clean(table, a + b) <==> Clean(table, a) && Clean(ApplyAll(table, a), b)
  {
    if b == [] {
      assert a + b == a;
    } else {
      var rest := b[..|b| - 1];
      CleanAppend(table, a, rest);
      ApplyAppend(table, a, rest);
      assert (a + b)[..|a + b| - 1] == a + rest;
    }
  }

  lemma {:induction false} CleanAdds(table: Table, files: seq<File>, known: set<Str>, time: int)
    requires table.Keys == known
    ensures Clean(table, Adds(files, known, time)) <==> Once(files, known)
  {
    if files != [] {
      var before, f := files[..|files| - 1], files[|files| - 1];
      CleanAdds(table, before, known, time);
      ApplyAdds(table, before, known, time);
      hide Paths, Clean;
      if f.path !in known {
        CleanSnoc(table, Adds(before, known, time), Add(f, time));
      } else {
        assert Adds(files, known, time) == Adds(before, known, time);
      }
    }
  }

  lemma {:induction false} CleanRemoves(table: Table, files: seq<File>, kept: set<Str>, time: int)
    requires Paths(files) <= table.Keys
    ensures Clean(table, Removes(files, kept, time)) <==> Once(files, kept)
  {
    if files != [] {
      var before, f := files[..|files| - 1], files[|files| - 1];
      PathsSnoc(files);
      hide Paths, Clean;
      CleanRemoves(table, before, kept, time);
      ApplyRemoves(table, before, kept, time);
      if f.path !in kept {
        CleanSnoc(table, Removes(before, kept, time), Remove(f.path, f.size, time));
      } else {
        assert Removes(files, kept, time) == Removes(before, kept, time);
      }
    }
  }

  /** A commit is clean exactly when no new path repeats in the version and no dropped path in the one before. */
  lemma CommitIsCleanIff(s: State, files: seq<File>, time: int)
    requires Inv(s)
    ensures Clean(Replay(s.commits), Commit(s, files, time)) <==>
            Once(files, Paths(s.files)) && Once(s.files, Paths(files))
  {
    if s.commits == [] {
      CleanFirst(s, files, time);
    } else {
      CleanDiff(s, Replay(s.commits), files, time);
    }
  }

  lemma CleanFirst(s: State, files: seq<File>, time: int)
    requires s.commits == [] && s.files == []
    ensures Clean(Replay(s.commits), Commit(s, files, time)) <==>
            Once(files, Paths(s.files)) && Once(s.files, Paths(files))
  {
    assert Paths(s.files) == {} && Once(s.files, Paths(files)) && Replay(s.commits) == map[];
    hide Paths, Clean, Replay, Once;
    Header(map[], time);
    CleanAppend(map[], [Protocol, MetaData(time)], Adds(files, {}, time));
    CleanAdds(map[], files, {}, time);
  }

  lemma CleanDiff(s: State, table: Table, files: seq<File>, time: int)
    requires table.Keys == Paths(s.files)
    ensures Clean(table, Adds(files, Paths(s.files), time) + Removes(s.files, Paths(files), time)) <==>
            Once(files, Paths(s.files)) && Once(s.files, Paths(files))
  {
    hide Paths, Clean;
    var adds, removes := Adds(files, Paths(s.files), time), Removes(s.files, Paths(files), time);
    CleanAppend(table, adds, removes);
    CleanAdds(table, files, Paths(s.files), time);
    ApplyAdds(table, files, Paths(s.files), time);
    CleanRemoves(ApplyAll(table, adds), s.files, Paths(files), time);
  }

  ghost predicate AllClean(commits: seq<seq<Action>>) {
    forall k | 0 <= k < |commits| :: Clean(Replay(commits[..k]), commits[k])
  }

  /** No commit is ever empty, whatever versions are registered. */
  lemma {:induction false} CommitsAreNotEmpty(versions: seq<Version>, tablePath: Str)
    ensures forall k | 0 <= k < |RegisterAll(versions, tablePath).commits| :: RegisterAll(versions, tablePath).commits[k] != []
  {
    if versions != [] {
      CommitsAreNotEmpty(versions[..|versions| - 1], tablePath);
    }
  }

  lemma {:induction false} OnceWeakens(files: seq<File>, known: set<Str>)
    requires Once(files, {})
    ensures Once(files, known)
  {
    if files != [] {
      OnceWeakens(files[..|files| - 1], known);
    }
  }

  lemma AllCleanSnoc(commits: seq<seq<Action>>, commit: seq<Action>)
    requires AllClean(commits) && Clean(Replay(commits), commit)
    ensures AllClean(commits + [commit])
  {
    hide Clean, Replay;
    var all := commits + [commit];
    forall k | 0 <= k < |all|
      ensures Clean(Replay(all[..k]), all[k])
    {
      assert all[..k] == commits[..k];
      assert commits[..|commits|] == commits;
    }
  }

  /** When no version repeats a path, every commit is clean. */
  lemma {:induction false} CommitsAreClean(versions: seq<Version>, tablePath: Str)
    requires forall i | 0 <= i < |versions| :: Once(FilesOf(versions[i].splits, tablePath), {})
    ensures AllClean(RegisterAll(versions, tablePath).commits)
    ensures Once(RegisterAll(versions, tablePath).files, {})
  {
    if versions != [] {
      var before, last := versions[..|versions| - 1], versions[|versions| - 1];
      CommitsAreClean(before, tablePath);
      var s := RegisterAll(before, tablePath);
      var files := FilesOf(last.splits, tablePath);
      ReplayGivesNewest(before, tablePath);
      hide Inv, Clean, Once, FilesOf, Commit;
      OnceWeakens(files, Paths(s.files));
      OnceWeakens(s.files, Paths(files));
      CommitIsCleanIff(s, files, last.watermark);
      if Commit(s, files, last.watermark) != [] {
        AllCleanSnoc(s.commits, Commit(s, files, last.watermark));
      }
    }
  }

  // The full entries.

  /** The table holds exactly the files. */
  ghost predicate Exact(table: Table, files: seq<File>) {
    table.Keys == Paths(files) && forall f | f in files :: table[f.path] == f
  }

  /** `files` lists each path with one entry, and each path kept from `prev` with the entry it has there. */
  ghost predicate Agree(prev: seq<File>, files: seq<File>) {
    && (forall f, g | f in files && g in files && f.path == g.path :: f == g)
    && (forall f, g | f in prev && g in files && f.path == g.path :: f == g)
  }

  /** Adding leaves the known entries alone and takes the new ones from the files. */
  lemma {:induction false} AddsGive(table: Table, files: seq<File>, known: set<Str>, time: int)
    requires table.Keys <= known
    ensures var next := ApplyAll(table, Adds(files, known, time));
            forall p | p in next ::
              if p in known then p in table && next[p] == table[p] else next[p] in files && next[p].path == p
  {
    if files != [] {
      var before, f := files[..|files| - 1], files[|files| - 1];
      AddsGive(table, before, known, time);
      assert files == before + [f];
      if f.path !in known {
        ApplySnoc(table, Adds(before, known, time), Add(f, time));
        hide ApplyAll, Adds;
      } else {
        assert Adds(files, known, time) == Adds(before, known, time);
      }
    }
  }

  /** So does a commit, for the paths remembered. */
  lemma CommitGives(s: State, files: seq<File>, time: int)
    requires Inv(s)
    ensures var table := Replay(s.commits);
            var next := ApplyAll(table, Commit(s, files, time));
            && next.Keys == Paths(files)
            && forall p | p in next :: if p in table then next[p] == table[p] else next[p] in files && next[p].path == p
  {
    hide Replay, Paths;
    CommitReplays(s, files, time);
    var table := Replay(s.commits);
    if s.commits == [] {
      assert table == map[] && Paths([]) == {} by { assert table.Keys == Paths(s.files); NoPaths(); }
      ApplyAppend(table, [Protocol, MetaData(time)], Adds(files, {}, time));
      Header(table, time);
      AddsGive(table, files, {}, time);
    } else {
      var adds, removes := Adds(files, Paths(s.files), time), Removes(s.files, Paths(files), time);
      ApplyAppend(table, adds, removes);
      AddsGive(table, files, Paths(s.files), time);
      ApplyRemoves(ApplyAll(table, adds), s.files, Paths(files), time);
    }
  }

  lemma NoPaths()
    ensures Paths([]) == {}
  {
  }

  /** A commit over an exact log leaves an exact one exactly when the version agrees with the one before. */
  lemma CommitIsExactIff(s: State, prev: seq<File>, files: seq<File>, time: int)
    requires Inv(s) && Exact(Replay(s.commits), prev)
    ensures Exact(ApplyAll(Replay(s.commits), Commit(s, files, time)), files) <==> Agree(prev, files)
  {
    var table := Replay(s.commits);
    var next := ApplyAll(table, Commit(s, files, time));
    hide Replay, Commit, Inv;
    CommitGives(s, files, time);
    if Exact(next, files) {
      forall f, g | f in prev && g in files && f.path == g.path
        ensures f == g
      {
        assert f.path in table && f.path in next;
      }
    } else if Agree(prev, files) {
      forall f | f in files
        ensures next[f.path] == f
      {
        if f.path in table {
          assert f.path in Paths(prev);
        }
      }
    }
  }

  /** After every version the replayed log holds exactly the files of the newest one. */
  ghost predicate AlwaysExact(versions: seq<Version>, tablePath: Str) {
    forall k | 0 <= k <= |versions| ::
      Exact(Replay(RegisterAll(versions[..k], tablePath).commits), NewestFiles(versions[..k], tablePath))
  }

  ghost predicate VersionAgrees(before: seq<Version>, v: Version, tablePath: Str) {
    v.version > Highest(before) ==> Agree(NewestFiles(before, tablePath), FilesOf(v.splits, tablePath))
  }

  /** Every accepted version agrees with the one accepted before it. */
  ghost predicate VersionsAgree(versions: seq<Version>, tablePath: Str) {
    forall k | 0 <= k < |versions| :: VersionAgrees(versions[..k], versions[k], tablePath)
  }

  lemma RegisterIsExactIff(versions: seq<Version>, v: Version, tablePath: Str)
    requires Exact(Replay(RegisterAll(versions, tablePath).commits), NewestFiles(versions, tablePath))
    ensures Exact(Replay(RegisterAll(versions + [v], tablePath).commits), NewestFiles(versions + [v], tablePath))
       <==> VersionAgrees(versions, v, tablePath)
  {
    assert (versions + [v])[..|versions|] == versions;
    var s, files := RegisterAll(versions, tablePath), FilesOf(v.splits, tablePath);
    ReplayGivesNewest(versions, tablePath);
    hide Exact, Agree, Inv, Paths, FilesOf, Commit, Replay;
    CommitIsExactIff(s, NewestFiles(versions, tablePath), files, v.watermark);
    ReplaySnoc(s.commits, Commit(s, files, v.watermark));
  }

  /** Replay gives the full entries of the newest version at all times if and only if each version agrees with the last. */
  lemma {:induction false} EntriesExactIff(versions: seq<Version>, tablePath: Str)
    ensures AlwaysExact(versions, tablePath) <==> VersionsAgree(versions, tablePath)
  {
    hide Exact, VersionAgrees, RegisterAll, NewestFiles, Replay;
    if versions == [] {
      StartsExact(tablePath);
    } else {
      var n := |versions| - 1;
      var before := versions[..n];
      EntriesExactIff(before, tablePath);
      assert versions == before + [versions[n]] && versions[..n + 1] == versions && before[..n] == before;
      assert forall k | 0 <= k <= n :: before[..k] == versions[..k];
      if AlwaysExact(before, tablePath) {
        RegisterIsExactIff(before, versions[n], tablePath);
      }
    }
  }

  lemma StartsExact(tablePath: Str)
    ensures AlwaysExact([], tablePath)
  {
    NoPaths();
    var none: seq<Version> := [];
    assert none[..0] == none;
  }

  /** A second version that lists the same path with another size: the log keeps the entry of the first. */
  lemma ResizedFileIsStale() returns (versions: seq<Version>, tablePath: Str)
    ensures |versions| == 2 && |versions[0].splits| == |versions[1].splits| == 1
    ensures versions[0].splits[0].objectKey == versions[1].splits[0].objectKey
    ensures !AlwaysExact(versions, tablePath)
  {
    tablePath := [116];
    versions := [Version(1, 0, [SplitFile([120], 1, 1)]), Version(2, 0, [SplitFile([120], 2, 1)])];
    var first, second := FilesOf(versions[0].splits, tablePath), FilesOf(versions[1].splits, tablePath);
    assert versions[..1][..0] == [] && Highest([]) == 0;
    assert Highest(versions[..1]) == 1 && NewestFiles(versions[..1], tablePath) == first;
    assert first[0] in first && second[0] in second && first[0].path == second[0].path && first[0] != second[0];
    assert !VersionAgrees(versions[..1], versions[1], tablePath);
    EntriesExactIff(versions, tablePath);
  }

  /** `f` is a file of one of the versions. */
  ghost predicate Listed(f: File, versions: seq<Version>, tablePath: Str) {
    exists i :: 0 <= i < |versions| && f in FilesOf(versions[i].splits, tablePath)
  }

  /** Every version gives the same size and record count to the same path. */
  ghost predicate PathDeterminesFile(versions: seq<Version>, tablePath: Str) {
    forall f, g | Listed(f, versions, tablePath) && Listed(g, versions, tablePath) && f.path == g.path :: f == g
  }

  lemma {:induction false} NewestIsListed(versions: seq<Version>, tablePath: Str, k: nat, f: File)
    requires k <= |versions| && f in NewestFiles(versions[..k], tablePath)
    ensures Listed(f, versions, tablePath)
  {
    assert k > 0 && versions[..k][..k - 1] == versions[..k - 1];
    if versions[k - 1].version > Highest(versions[..k - 1]) {
      assert f in FilesOf(versions[k - 1].splits, tablePath);
    } else {
      NewestIsListed(versions, tablePath, k - 1, f);
    }
  }

  /** If the path determines the file, replay yields exactly the file entries of the newest accepted version. */
  lemma ReplayGivesNewestEntries(versions: seq<Version>, tablePath: Str)
    requires PathDeterminesFile(versions, tablePath)
    ensures Exact(Replay(RegisterAll(versions, tablePath).commits), NewestFiles(versions, tablePath))
  {
    forall k | 0 <= k < |versions|
      ensures VersionAgrees(versions[..k], versions[k], tablePath)
    {
      forall f | f in NewestFiles(versions[..k], tablePath)
        ensures Listed(f, versions, tablePath)
      {
        NewestIsListed(versions, tablePath, k, f);
      }
      forall f | f in FilesOf(versions[k].splits, tablePath)
        ensures Listed(f, versions, tablePath)
      {
      }
    }
    EntriesExactIff(versions, tablePath);
    assert versions[..|versions|] == versions;
  }

  /** Two object keys share a path only if one is the other below the table path, and that other is not below it itself. */
  lemma PathsCollideIff(a: Str, b: Str, tablePath: Str)
    requires a != b
    ensures var prefix := tablePath + [SLASH];
            RelPath(a, tablePath) == RelPath(b, tablePath) <==>
            (a == prefix + b && !(prefix <= b)) || (b == prefix + a && !(prefix <= a))
  {
    var prefix := tablePath + [SLASH];
    assert prefix <= a ==> a == prefix + a[|prefix|..];
    assert prefix <= b ==> b == prefix + b[|prefix|..];
    assert (prefix + b)[|prefix|..] == b && (prefix + a)[|prefix|..] == a;
  }

  /** Two object keys of one version that collide below the table path: the commit adds the path twice. */
  lemma CollidingKeysAreAddedTwice() returns (versions: seq<Version>, tablePath: Str)
    ensures |versions| == 1 && |versions[0].splits| == 2 && versions[0].splits[0].objectKey != versions[0].splits[1].objectKey
    ensures !AllClean(RegisterAll(versions, tablePath).commits)
  {
    tablePath := [116];
    var below, outside: Str := [116, 47, 120], [120];
    var splits := [SplitFile(below, 1, 1), SplitFile(outside, 2, 2)];
    versions := [Version(1, 0, splits)];
    assert below == tablePath + [SLASH] + outside;
    PathsCollideIff(below, outside, tablePath);
    var files := FilesOf(splits, tablePath);
    assert versions[..0] == [] && RegisterAll([], tablePath) == START;
    var s := RegisterAll(versions, tablePath);
    var commit := Commit(START, files, 0);
    assert s.commits == [] + [commit] == [commit];
    RepeatedPath(files);
    assert Replay([]) == map[] && Paths([]) == {};
    CommitIsCleanIff(START, files, 0);
    assert [commit][..0] == [];
    assert !Clean(Replay(s.commits[..0]), s.commits[0]);
  }

  lemma RepeatedPath(files: seq<File>)
    requires |files| == 2 && files[0].path == files[1].path
    ensures !Once(files, {})
  {
    var before := files[..1];
    assert before[0] in before;
    assert files[1].path in Paths(before);
  }
}
