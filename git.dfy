/**
 * The snapshot state machine: a project's `.vsc` working tree and the
 * `ProjectFactory` object that tracks which files the current run produced
 * and reconciles them against the last commit. Git itself is abstract: a
 * `Repo` answers `ls-tree`, `status` and the remote's reachability from its
 * state and records, in call order, every operation the engine asks of it.
 */
module Git {
  import opened Wrappers
  import opened Paths
  import Seqs
  import Util

  datatype Rename = Rename(from: string, to: string)

  /** The four lists of `git status` that the engine reads. */
  datatype Status = Status(created: seq<string>, deleted: seq<string>, modified: seq<string>, renamed: seq<Rename>)

  /** One element of one of the status lists. */
  datatype Change = PathChange(path: string) | RenameChange(rename: Rename)

  /** `Object.values(diff)`: the four lists, in key order. */
  function Entries(s: Status): seq<seq<Change>> {
    [ Seqs.Map(s.created, (p: string) => PathChange(p)),
      Seqs.Map(s.deleted, (p: string) => PathChange(p)),
      Seqs.Map(s.modified, (p: string) => PathChange(p)),
      Seqs.Map(s.renamed, (r: Rename) => RenameChange(r)) ]
  }

  /** `lists.reduce((a, b) => a.concat(b), [])` */
  function Concat<T>(lists: seq<seq<T>>): (r: seq<T>)
    ensures |r| == 0 <==> forall k :: 0 <= k < |lists| ==> |lists[k]| == 0
  {
    if lists == [] then []
    else
      assert forall k :: 0 <= k < |lists| - 1 ==> lists[..|lists| - 1][k] == lists[k];
      Concat(lists[..|lists| - 1]) + lists[|lists| - 1]
  }

  /** The length of the concatenated status lists: the total number of changes. */
  function ChangeCount(s: Status): (n: nat)
    ensures n == |s.created| + |s.deleted| + |s.modified| + |s.renamed|
    ensures n == 0 <==> s.created == [] && s.deleted == [] && s.modified == [] && s.renamed == []
  {
    var e := Entries(s);
    assert e[..3][..2] == e[..2] && e[..2][..1] == e[..1] && e[..1][..0] == [];
    assert Concat(e) == Concat(e[..3]) + e[3];
    assert Concat(e[..3]) == Concat(e[..2]) + e[2];
    assert Concat(e[..2]) == Concat(e[..1]) + e[1];
    assert Concat(e[..1]) == e[0];
    |Concat(e)|
  }

  /** The operations the engine asks of git, as recorded in call order. */
  datatype GitOp =
    | Fetch
    | ResetHard
    | Remove(paths: seq<string>)
    | Stage(paths: seq<string>)
    | Commit(message: string)
    | Push(remote: string, branch: string, force: bool)

  datatype GitError = FetchFailed | PathMissing(path: string) | UpdateFailed

  /**
   * A `simple-git` handle on the working tree. `headListing` is what
   * `git ls-tree --name-only -r HEAD` prints (None when it fails, as on a
   * repository without commits), `status` what `git status` reports, and
   * `reachable` whether fetch and push reach the remote.
   */
  class Repo {
    const headListing: Option<string>
    const status: Status
    const reachable: bool
    const lastChange: string
    var log: seq<GitOp>

    constructor (headListing: Option<string>, status: Status, reachable: bool, lastChange: string)
      ensures this.headListing == headListing && this.status == status
      ensures this.reachable == reachable && this.lastChange == lastChange
      ensures log == []
    {
      this.headListing := headListing;
      this.status := status;
      this.reachable := reachable;
      this.lastChange := lastChange;
      log := [];
    }

    method Fetch() returns (ok: bool)
      modifies this`log
      ensures ok == reachable && log == old(log) + [GitOp.Fetch]
    {
      log := log + [GitOp.Fetch];
      ok := reachable;
    }

    method ResetHard()
      modifies this`log
      ensures log == old(log) + [GitOp.ResetHard]
    {
      log := log + [GitOp.ResetHard];
    }

    method Rm(paths: seq<string>)
      modifies this`log
      ensures log == old(log) + [Remove(paths)]
    {
      log := log + [Remove(paths)];
    }

    method Add(paths: seq<string>)
      modifies this`log
      ensures log == old(log) + [Stage(paths)]
    {
      log := log + [Stage(paths)];
    }

    method Commit(message: string)
      modifies this`log
      ensures log == old(log) + [GitOp.Commit(message)]
    {
      log := log + [GitOp.Commit(message)];
    }

    method Push(remote: string, branch: string, force: bool) returns (ok: bool)
      modifies this`log
      ensures ok == reachable && log == old(log) + [GitOp.Push(remote, branch, force)]
    {
      log := log + [GitOp.Push(remote, branch, force)];
      ok := reachable;
    }
  }

  const DEFAULT_MESSAGE := "Updated by Gbck"
  const PUSH_REMOTE := "origin"
  const PUSH_BRANCH := "master"

  /** `getProjectRepositoryPath`: the `.vsc` directory inside the project's directory. */
  function RepositoryPath(fs: FileSystem, root: string, name: string): (r: Result<string, Util.ConfigError>)
    ensures r.Ok? <==> root + "/" + name in fs
    ensures r.Ok? ==> r.value == root + "/" + name + "/.vsc"
  {
    match Util.GetProjectPath(fs, root, name)
    case Err(e) => Err(e)
    case Ok(projectPath) => Ok(projectPath + "/.vsc")
  }

  /** The project directory is the parent of its `.vsc`. */
  lemma DirOfRepositoryPath(root: string, name: string)
    ensures '/' in root + "/" + name + "/.vsc"
    ensures Parent(root + "/" + name + "/.vsc") == root + "/" + name
  {
    assert root + "/" + name + "/.vsc" == (root + "/" + name) + "/" + ".vsc";
    ParentOfChild(root + "/" + name, ".vsc");
  }

  /** The paths of the last commit: the non-empty lines of `ls-tree`, none if it failed. */
  function KnownFiles(listing: Option<string>): (r: seq<string>)
    ensures listing.None? ==> r == []
    ensures forall k :: 0 <= k < |r| ==> r[k] != "" && '\n' !in r[k]
  {
    match listing
    case None => []
    case Some(text) => Lines(text)
  }

  /** A listing of names reads back as exactly those names. */
  lemma KnownFilesOfListing(names: seq<string>)
    requires forall k :: 0 <= k < |names| ==> names[k] != "" && '\n' !in names[k]
    ensures KnownFiles(Some(Unlines(names))) == names
  {
    LinesOfListing(names);
  }

  /** The known files the run did not track, resolved under `vsc`. */
  function Candidates(known: seq<string>, files: seq<string>, vsc: string): (r: seq<string>)
    ensures forall k :: 0 <= k < |known| && known[k] !in files ==> Resolve(vsc, known[k]) in r
    ensures forall c :: c in r ==> exists k :: 0 <= k < |known| && known[k] !in files && c == Resolve(vsc, known[k])
  {
    var untracked := Seqs.Filter(known, (f: string) => f !in files);
    var r := Seqs.Map(untracked, (f: string) => Resolve(vsc, f));
    forall k | 0 <= k < |known| && known[k] !in files
      ensures Resolve(vsc, known[k]) in r
    {
      var j :| 0 <= j < |untracked| && untracked[j] == known[k];
      assert r[j] == Resolve(vsc, known[k]);
    }
    forall c | c in r
      ensures exists k :: 0 <= k < |known| && known[k] !in files && c == Resolve(vsc, known[k])
    {
      var j :| 0 <= j < |r| && r[j] == c;
      assert untracked[j] in known;
      var k :| 0 <= k < |known| && known[k] == untracked[j];
      assert c == Resolve(vsc, known[k]);
    }
    r
  }

  /** The candidates `lstat` cannot find. */
  function Missing(candidates: seq<string>, fs: FileSystem): (r: seq<string>)
    ensures r != [] ==> r[0] !in fs && exists k :: 0 <= k < |candidates| && candidates[k] == r[0]
                                                    && forall j :: 0 <= j < k ==> candidates[j] in fs
    ensures r == [] ==> forall c :: c in candidates ==> c in fs
  {
    var r := Seqs.Filter(candidates, (c: string) => c !in fs);
    if r == [] then r
    else
      Seqs.FilterFirst(candidates, (c: string) => c !in fs);
      r
  }

  /** The candidates that are not directories. */
  function NonDirectories(candidates: seq<string>, fs: FileSystem): (r: seq<string>)
    ensures forall x :: x in r <==> x in candidates && !IsDir(fs, x)
  {
    Seqs.Filter(candidates, (c: string) => !IsDir(fs, c))
  }

  /**
   * The files to remove: the known files the run did not track, resolved
   * under `vsc`, directories dropped. `lstat` throws on the first candidate
   * that does not exist.
   */
  function RemovedFiles(known: seq<string>, files: seq<string>, vsc: string, fs: FileSystem): Result<seq<string>, GitError>
  {
    var candidates := Candidates(known, files, vsc);
    var missing := Missing(candidates, fs);
    if missing != [] then Err(PathMissing(missing[0]))
    else Ok(NonDirectories(candidates, fs))
  }

  /**
   * What `RemovedFiles` means: it fails exactly when some untracked known
   * file is missing, and otherwise removes exactly the untracked known paths
   * that are not directories.
   */
  lemma RemovedFilesMeaning(known: seq<string>, files: seq<string>, vsc: string, fs: FileSystem)
    ensures var r := RemovedFiles(known, files, vsc, fs);
            r.Err? <==> exists k :: 0 <= k < |known| && known[k] !in files && Resolve(vsc, known[k]) !in fs
    ensures var r := RemovedFiles(known, files, vsc, fs);
            r.Ok? ==> forall x :: x in r.value <==>
              exists k :: 0 <= k < |known| && known[k] !in files && x == Resolve(vsc, known[k]) && !IsDir(fs, x)
  {
    var candidates := Candidates(known, files, vsc);
    var missing := Missing(candidates, fs);
    if missing != [] {
      var k :| 0 <= k < |known| && known[k] !in files && missing[0] == Resolve(vsc, known[k]);
    }
  }

  /** The removed list keeps the order of the `ls-tree` listing: it is computed line by line. */
  lemma RemovedFilesOrder(a: seq<string>, b: seq<string>, files: seq<string>, vsc: string, fs: FileSystem)
    requires RemovedFiles(a + b, files, vsc, fs).Ok?
    ensures RemovedFiles(a, files, vsc, fs).Ok? && RemovedFiles(b, files, vsc, fs).Ok?
    ensures RemovedFiles(a + b, files, vsc, fs).value
            == RemovedFiles(a, files, vsc, fs).value + RemovedFiles(b, files, vsc, fs).value
  {
    var untracked := (f: string) => f !in files;
    Seqs.FilterConcat(a, b, untracked);
    Seqs.MapConcat(Seqs.Filter(a, untracked), Seqs.Filter(b, untracked), (f: string) => Resolve(vsc, f));
    var ca := Candidates(a, files, vsc);
    var cb := Candidates(b, files, vsc);
    assert Candidates(a + b, files, vsc) == ca + cb;
    Seqs.FilterConcat(ca, cb, (c: string) => c !in fs);
    Seqs.FilterConcat(ca, cb, (c: string) => !IsDir(fs, c));
  }

  /** A file the run tracked is never removed. */
  lemma TrackedNeverRemoved(known: seq<string>, files: seq<string>, vsc: string, fs: FileSystem, f: string)
    requires f in files && RemovedFiles(known, files, vsc, fs).Ok?
    requires forall k :: 0 <= k < |known| && Resolve(vsc, known[k]) == Resolve(vsc, f) ==> known[k] == f
    ensures Resolve(vsc, f) !in RemovedFiles(known, files, vsc, fs).value
  {
    RemovedFilesMeaning(known, files, vsc, fs);
  }

  /** The staging `isUpToDate` performs: `rm` only for a non-empty list, `add` only for a non-empty one. */
  function StagingOps(removed: seq<string>, files: seq<string>): (ops: seq<GitOp>)
    ensures Remove(removed) in ops <==> |removed| > 0
    ensures Stage(files) in ops <==> |files| > 0
    ensures forall k :: 0 <= k < |ops| ==> ops[k] == Remove(removed) || ops[k] == Stage(files)
    ensures |removed| > 0 ==> ops[0] == Remove(removed)
    ensures |ops| == (if |removed| > 0 then 1 else 0) + (if |files| > 0 then 1 else 0)
  {
    (if |removed| > 0 then [Remove(removed)] else []) + (if |files| > 0 then [Stage(files)] else [])
  }

  /** `date.replace('\n', '')`: the first newline goes, any later one stays. */
  function TrimFirstNewline(s: string): (r: string)
    ensures '\n' !in s ==> r == s
    ensures '\n' in s ==> exists i :: 0 <= i < |s| && s[i] == '\n' && '\n' !in s[..i] && r == s[..i] + s[i + 1..]
  {
    ReplaceFirstNewline(s);
    ReplaceFirst(s, "\n", "")
  }

  lemma ReplaceFirstNewline(s: string)
    ensures '\n' !in s ==> ReplaceFirst(s, "\n", "") == s
    ensures '\n' in s ==> exists i :: 0 <= i < |s| && s[i] == '\n' && '\n' !in s[..i] && ReplaceFirst(s, "\n", "") == s[..i] + s[i + 1..]
  {
    match IndexOf(s, "\n", 0)
    case None =>
      forall j | 0 <= j < |s|
        ensures s[j] != '\n'
      {
        NewlineAt(s, j);
      }
    case Some(i) =>
      NewlineAt(s, i);
      forall k | 0 <= k < i
        ensures s[..i][k] != '\n'
      {
        NewlineAt(s, k);
      }
      assert ReplaceFirst(s, "\n", "") == s[..i] + "" + s[i + 1..];
      assert s[..i] + "" + s[i + 1..] == s[..i] + s[i + 1..];
  }

  /** A newline occurs at `j` exactly when it is the character at `j`. */
  lemma NewlineAt(s: string, j: nat)
    requires j < |s|
    ensures OccursAt(s, "\n", j) <==> s[j] == '\n'
  {
    assert s[j..j + 1] == [s[j]];
  }

  datatype OpenError = ConfigFailed(error: Util.ConfigError) | VscMissing

  class ProjectFactory {
    const projectName: string
    var files: seq<string>
    var vsc: Option<string>
    var config: Option<Util.ProjectConfig>
    var repo: Repo?

    constructor (projectName: string)
      ensures this.projectName == projectName && files == []
      ensures vsc == None && config == None && repo == null
    {
      this.projectName := projectName;
      files := [];
      vsc := None;
      config := None;
      repo := null;
    }

    /** The state `open` establishes when it succeeds. */
    predicate IsOpen()
      reads this
    {
      vsc.Some? && '/' in vsc.value && config.Some? && repo != null
    }

    /** The `dir` getter: the parent of `vsc`. */
    function Dir(): string
      reads this
      requires vsc.Some? && '/' in vsc.value
    {
      Parent(vsc.value)
    }

    /**
     * `open`: locate `.vsc` (the project directory must exist), require it to
     * exist, load the configuration, and attach the repository handle. A
     * failure leaves whatever was assigned before it.
     */
    method Open(root: string, fs: FileSystem, contents: map<string, string>, parse: string -> Option<Util.Value>,
                urlOk: string -> bool, handle: Repo) returns (r: Outcome<OpenError>)
      modifies this`vsc, this`config, this`repo
      ensures var path := RepositoryPath(fs, root, projectName);
              var loaded := Util.GetProjectConfig(fs, contents, parse, urlOk, root, projectName);
              && (path.Err? ==> r == Fail(ConfigFailed(path.error)) && vsc == old(vsc) && config == old(config) && repo == old(repo))
              && (path.Ok? ==> vsc == Some(path.value))
              && (path.Ok? && path.value !in fs ==> r == Fail(VscMissing) && config == old(config) && repo == old(repo))
              && (path.Ok? && path.value in fs && loaded.Err? ==> r == Fail(ConfigFailed(loaded.error)) && config == old(config) && repo == old(repo))
              && (path.Ok? && path.value in fs && loaded.Ok? ==> r == Pass && config == Some(loaded.value) && repo == handle)
      ensures r.Pass? ==> IsOpen()
      ensures r.Pass? ==> Dir() == root + "/" + projectName
    {
      var path := RepositoryPath(fs, root, projectName);
      if path.Err? {
        return Fail(ConfigFailed(path.error));
      }
      vsc := Some(path.value);
      assert path.value[|root| + |projectName| + 1] == '/';
      if path.value !in fs {
        return Fail(VscMissing);
      }
      var loaded := Util.GetProjectConfig(fs, contents, parse, urlOk, root, projectName);
      if loaded.Err? {
        return Fail(ConfigFailed(loaded.error));
      }
      config := Some(loaded.value);
      repo := handle;
      DirOfRepositoryPath(root, projectName);
      r := Pass;
    }

    /** `reset`: fetch, then hard-reset; a failed fetch stops before the reset. */
    method Reset() returns (r: Outcome<GitError>)
      requires IsOpen()
      modifies repo`log
      ensures repo.reachable ==> r == Pass && repo.log == old(repo.log) + [GitOp.Fetch, GitOp.ResetHard]
      ensures !repo.reachable ==> r == Fail(FetchFailed) && repo.log == old(repo.log) + [GitOp.Fetch]
    {
      var ok := repo.Fetch();
      if !ok {
        return Fail(FetchFailed);
      }
      repo.ResetHard();
      r := Pass;
    }

    /** `add(f)`: record `f` as produced by this run. */
    method Add(file: string)
      modifies this`files
      ensures files == old(files) + [file]
    {
      files := files + [file];
    }

    /** `diff`: the four status lists. */
    method Diff() returns (s: Status)
      requires IsOpen()
      ensures s == repo.status
    {
      s := repo.status;
    }

    /**
     * `update`: commit with the default message under auto-commit, otherwise
     * with the prompted `answer`; then force-push to `origin master`, whatever
     * branch the configuration names.
     */
    method Update(autoCommit: bool, answer: string) returns (r: Outcome<GitError>)
      requires IsOpen()
      modifies repo`log
      ensures var message := if autoCommit then DEFAULT_MESSAGE else answer;
              repo.log == old(repo.log) + [GitOp.Commit(message), GitOp.Push(PUSH_REMOTE, PUSH_BRANCH, true)]
      ensures r.Pass? <==> repo.reachable
      ensures r.Fail? ==> r.error == UpdateFailed
    {
      var message := DEFAULT_MESSAGE;
      if !autoCommit {
        message := answer;
      }
      repo.Commit(message);
      var ok := repo.Push(PUSH_REMOTE, PUSH_BRANCH, true);
      r := if ok then Pass else Fail(UpdateFailed);
    }

    /** The paths `isUpToDate` removes from the index, or the failure of its `lstat`. */
    function Removal(fs: FileSystem): Result<seq<string>, GitError>
      reads this
      requires IsOpen()
    {
      RemovedFiles(KnownFiles(repo.headListing), files, vsc.value, fs)
    }

    /** The staging half of `isUpToDate`: `rm` the doomed paths, then `add` the tracked files. */
    method Stage(doomed: seq<string>)
      requires IsOpen()
      modifies repo`log
      ensures repo.log == old(repo.log) + StagingOps(doomed, files)
    {
      if |doomed| > 0 {
        repo.Rm(doomed);
      }
      if |files| > 0 {
        repo.Add(files);
      }
    }

    /**
     * `isUpToDate`: remove from the index the committed files this run did not
     * track, stage the tracked ones, and report whether git then sees no change.
     */
    method IsUpToDate(fs: FileSystem) returns (r: Result<bool, GitError>)
      requires IsOpen()
      modifies repo`log
      ensures Removal(fs).Err? ==> r == Err(Removal(fs).error) && repo.log == old(repo.log)
      ensures Removal(fs).Ok? ==> r == Ok(ChangeCount(repo.status) == 0)
                                  && repo.log == old(repo.log) + StagingOps(Removal(fs).value, files)
    {
      var removed := Removal(fs);
      if removed.Err? {
        return Err(removed.error);
      }
      Stage(removed.value);
      var diff := Diff();
      r := Ok(ChangeCount(diff) == 0);
    }

    /** `getLastChange`: git's relative date with its first newline removed. */
    method GetLastChange() returns (s: string)
      requires IsOpen()
      ensures s == TrimFirstNewline(repo.lastChange)
    {
      s := TrimFirstNewline(repo.lastChange);
    }
  }
}
