/**
 * The sync command: which things a project synchronises, how each declared
 * entity becomes a task with a source path, a destination name and options,
 * which copied files a directory task records, which requested projects run,
 * and which checked projects get committed.
 *
 * The filesystem, the shell, the directory walk and glob matching are fields
 * of an `Env`; the copying itself is not modelled, only what it records.
 */
module SyncProject {
  import opened Wrappers
  import opened Paths
  import Seqs
  import Util
  import Git

  // ---------------------------------------------------------------------------
  // The sync list

  /** An element of the sync list: a declared entity, or the value of an absent `readme`. */
  datatype Item = Declared(entity: Util.Entity) | Undefined

  /** The readme as an element of the sync list: a string entity, or undefined when the configuration has none. */
  function ReadmeItem(readme: Option<string>): Item {
    match readme
    case Some(path) => Declared(Util.StringEntity(path))
    case None => Undefined
  }

  /** The entity that synchronises the project's own configuration file. */
  function ConfigItem(dir: string): Item {
    Declared(Util.ObjectEntity(dir + "/config", ".gbck/config", None))
  }

  /** What a project synchronises: its entities in order, then its readme, then its configuration iff `syncConfig`. */
  function SyncItems(c: Util.ProjectConfig, dir: string): (r: seq<Item>)
    ensures |r| == |c.entities| + 1 + (if c.syncConfig then 1 else 0)
    ensures forall k :: 0 <= k < |c.entities| ==> r[k] == Declared(c.entities[k])
    ensures r[|c.entities|] == ReadmeItem(c.readme)
    ensures c.syncConfig ==> r[|r| - 1] == ConfigItem(dir)
  {
    Seqs.Map(c.entities, (e: Util.Entity) => Declared(e)) + [ReadmeItem(c.readme)]
      + (if c.syncConfig then [ConfigItem(dir)] else [])
  }

  // ---------------------------------------------------------------------------
  // Entity resolution

  /** The options a copy task runs with. */
  datatype Options = Options(includes: Option<seq<string>>, excludes: Option<seq<string>>, symlinks: bool)

  /** The defaults every entity starts from: no include list, no exclude list, symlinks followed. */
  const DEFAULT_OPTIONS := Options(None, None, true)

  /**
   * The options after the shallow merge of the entity over the defaults: a
   * supplied `options` object replaces the defaults as a whole, so a key it
   * omits is undefined, and an undefined `symlinks` is false.
   */
  function MergedOptions(e: Util.Entity): (r: Options)
    ensures e.StringEntity? || (e.ObjectEntity? && e.options.None?) ==> r == DEFAULT_OPTIONS
    ensures e.ObjectEntity? && e.options.Some? ==>
              r.includes == e.options.value.includes && r.excludes == e.options.value.excludes
              && (r.symlinks <==> e.options.value.symlinks == Some(true))
  {
    if e.ObjectEntity? && e.options.Some? then
      var o := e.options.value;
      Options(o.includes, o.excludes, o.symlinks.GetOr(false))
    else DEFAULT_OPTIONS
  }

  /** A synchronisation task: run a command into a file, or copy a source path. */
  datatype Plan =
    | CommandTask(name: string, command: string)
    | CopyTask(index: nat, file: string, name: string, options: Options)

  datatype SyncError =
    | WrongSyntax(index: nat)
    | UnknownType
    | ExecFailed(command: string)
    | CommandStderr(name: string)
    | WriteFailed(target: string)
    | EntityFailed(name: string, index: nat)

  /** The source path an entity names: the string itself, or its `i`. */
  function Source(e: Util.Entity): string
    requires !e.ArrayEntity?
  {
    if e.StringEntity? then e.path else e.i
  }

  /**
   * The task for the item at `index` of the sync list: a two-element array is
   * a command, any other array a syntax error, an undefined item an unknown
   * type; a string or object names a source, untildified and resolved against
   * `dir` when relative, copied under `o` or else under the source's basename.
   */
  function ResolveEntity(item: Item, index: nat, dir: string, home: string): (r: Result<Plan, SyncError>)
    ensures item.Undefined? ==> r == Err(UnknownType)
    ensures item.Declared? && item.entity.ArrayEntity? ==>
              if |item.entity.items| == 2 then r == Ok(CommandTask(item.entity.items[0], item.entity.items[1]))
              else r == Err(WrongSyntax(index))
    ensures item.Declared? && !item.entity.ArrayEntity? ==>
              r.Ok? && r.value.CopyTask? && r.value.index == index && r.value.options == MergedOptions(item.entity)
    ensures item.Declared? && !item.entity.ArrayEntity? ==>
              var x := Untildify(Source(item.entity), home);
              r.value.file == if IsAbsolute(x) then x else Resolve(dir, x)
    ensures item.Declared? && !item.entity.ArrayEntity? && IsAbsolute(Source(item.entity)) ==>
              r.value.file == Source(item.entity)
    ensures r.Ok? && r.value.CopyTask? && IsAbsolute(dir) ==> IsAbsolute(r.value.file)
    ensures r.Ok? && r.value.CopyTask? && item.entity.ObjectEntity? && item.entity.o != "" ==> r.value.name == item.entity.o
    ensures r.Ok? && r.value.CopyTask? && (item.entity.StringEntity? || item.entity.o == "") ==>
              r.value.name == Basename(r.value.file)
  {
    match item
    case Undefined => Err(UnknownType)
    case Declared(e) =>
      if e.ArrayEntity? then
        if |e.items| != 2 then Err(WrongSyntax(index)) else Ok(CommandTask(e.items[0], e.items[1]))
      else
        var expanded := Untildify(Source(e), home);
        var file := if IsAbsolute(expanded) then expanded else Resolve(dir, expanded);
        var given := if e.ObjectEntity? then e.o else "";
        var name := if given != "" then given else Basename(file);
        Ok(CopyTask(index, file, name, MergedOptions(e)))
  }

  /** A relative string entity without a tilde is copied from under `dir`, under its own last segment. */
  lemma RelativeStringEntity(path: string, index: nat, dir: string, home: string)
    requires !IsAbsolute(path) && (|path| == 0 || path[0] != '~') && StripTrailingSlashes(path) != ""
    ensures var r := ResolveEntity(Declared(Util.StringEntity(path)), index, dir, home);
            r == Ok(CopyTask(index, dir + "/" + StripTrailingSlashes(path), Basename(path), DEFAULT_OPTIONS))
  {
    var stripped := StripTrailingSlashes(path);
    assert StripTrailingSlashes(stripped) == stripped;
    BasenameOfChild(dir, stripped);
  }

  /** A home-relative entity is copied from under the home directory. */
  lemma HomeStringEntity(rest: string, index: nat, dir: string, home: string)
    requires IsAbsolute(home)
    ensures var r := ResolveEntity(Declared(Util.StringEntity("~/" + rest)), index, dir, home);
            r.Ok? && r.value.file == home + "/" + rest
  {
    assert ("~/" + rest)[1..] == "/" + rest;
  }

  /** The resolution of every item of the sync list, each with its own index. */
  function Resolutions(items: seq<Item>, dir: string, home: string): (rs: seq<Result<Plan, SyncError>>)
    ensures |rs| == |items|
    ensures forall k :: 0 <= k < |items| ==> rs[k] == ResolveEntity(items[k], k, dir, home)
  {
    seq(|items|, k requires 0 <= k < |items| => ResolveEntity(items[k], k, dir, home))
  }

  /** All the values when every result is `Ok`, else the first error. */
  function Collect<T, E>(rs: seq<Result<T, E>>): Result<seq<T>, E>
  {
    if rs == [] then Ok([])
    else
      match rs[0]
      case Err(e) => Err(e)
      case Ok(v) =>
        match Collect(rs[1..])
        case Err(e) => Err(e)
        case Ok(rest) => Ok([v] + rest)
  }

  /** `Collect` succeeds exactly when every result is `Ok`, and then holds their values in order. */
  lemma {:induction false} CollectMeaning<T, E>(rs: seq<Result<T, E>>)
    ensures Collect(rs).Ok? <==> forall k :: 0 <= k < |rs| ==> rs[k].Ok?
    ensures Collect(rs).Ok? ==> |Collect(rs).value| == |rs| && forall k :: 0 <= k < |rs| ==> rs[k] == Ok(Collect(rs).value[k])
  {
    if rs != [] {
      CollectMeaning(rs[1..]);
      assert forall k :: 1 <= k < |rs| ==> rs[k] == rs[1..][k - 1];
    }
  }

  /** The error of `Collect` is that of its first failing result. */
  lemma {:induction false} CollectFirstError<T, E>(rs: seq<Result<T, E>>)
    requires Collect(rs).Err?
    ensures exists k :: 0 <= k < |rs| && rs[k] == Err(Collect(rs).error) && forall j :: 0 <= j < k ==> rs[j].Ok?
  {
    if rs[0].Err? {
      assert rs[0] == Err(Collect(rs).error);
    } else {
      CollectFirstError(rs[1..]);
      var k :| 0 <= k < |rs[1..]| && rs[1..][k] == Err(Collect(rs).error) && forall j :: 0 <= j < k ==> rs[1..][j].Ok?;
      assert rs[k + 1] == rs[1..][k];
      assert forall j :: 1 <= j < k + 1 ==> rs[j] == rs[1..][j - 1];
    }
  }

  /** The tasks of the whole sync list: the first item that fails to resolve fails them all. */
  function Plans(items: seq<Item>, dir: string, home: string): Result<seq<Plan>, SyncError> {
    Collect(Resolutions(items, dir, home))
  }

  /** The tasks exist exactly when every item resolves, and then they are the items' tasks in order. */
  lemma PlansMeaning(items: seq<Item>, dir: string, home: string)
    ensures Plans(items, dir, home).Ok? <==> forall k :: 0 <= k < |items| ==> ResolveEntity(items[k], k, dir, home).Ok?
    ensures var r := Plans(items, dir, home);
            r.Ok? ==> |r.value| == |items|
                      && forall k :: 0 <= k < |items| ==> ResolveEntity(items[k], k, dir, home) == Ok(r.value[k])
  {
    CollectMeaning(Resolutions(items, dir, home));
  }

  /** The error of the tasks is that of the first item that fails to resolve. */
  lemma PlansFirstError(items: seq<Item>, dir: string, home: string)
    requires Plans(items, dir, home).Err?
    ensures var e := Plans(items, dir, home).error;
            exists k :: 0 <= k < |items| && ResolveEntity(items[k], k, dir, home) == Err(e)
              && (forall j :: 0 <= j < k ==> ResolveEntity(items[j], j, dir, home).Ok?)
  {
    CollectFirstError(Resolutions(items, dir, home));
  }

  /** A configuration without a readme never gets its tasks: the undefined readme is an unknown entity. */
  lemma MissingReadmeFails(c: Util.ProjectConfig, dir: string, home: string)
    requires c.readme.None?
    requires forall k :: 0 <= k < |c.entities| ==> ResolveEntity(Declared(c.entities[k]), k, dir, home).Ok?
    ensures Plans(SyncItems(c, dir), dir, home) == Err(UnknownType)
  {
    var items := SyncItems(c, dir);
    var r := Plans(items, dir, home);
    assert !ResolveEntity(items[|c.entities|], |c.entities|, dir, home).Ok?;
    PlansMeaning(items, dir, home);
    PlansFirstError(items, dir, home);
    var k :| 0 <= k < |items| && ResolveEntity(items[k], k, dir, home) == Err(r.error)
             && (forall j :: 0 <= j < k ==> ResolveEntity(items[j], j, dir, home).Ok?);
    assert k == |c.entities|;
  }

  // ---------------------------------------------------------------------------
  // The tracking filter

  /** Whether `base` matches some include pattern (`Array.prototype.some`). */
  predicate Included(base: string, patterns: seq<string>, matches: (string, string) -> bool) {
    exists k :: 0 <= k < |patterns| && matches(base, patterns[k])
  }

  /**
   * What the exclude loop decides: popping the patterns from the last one, it
   * meets a non-empty pattern that `base` matches before it meets an empty
   * pattern or runs out.
   */
  predicate Excluded(base: string, patterns: seq<string>, matches: (string, string) -> bool) {
    exists k :: 0 <= k < |patterns| && patterns[k] != "" && matches(base, patterns[k])
      && forall j :: k < j < |patterns| ==> patterns[j] != ""
  }

  /** The exclude loop: pop a copy of the patterns until one matches or a falsy value comes out. */
  method ExcludeHit(base: string, patterns: seq<string>, matches: (string, string) -> bool) returns (hit: bool)
    ensures hit == Excluded(base, patterns, matches)
  {
    var rest := patterns;
    while rest != [] && rest[|rest| - 1] != ""
      invariant rest == patterns[..|rest|]
      invariant forall j :: |rest| <= j < |patterns| ==> patterns[j] != "" && !matches(base, patterns[j])
      decreases |rest|
    {
      var current := rest[|rest| - 1];
      rest := rest[..|rest| - 1];
      if matches(base, current) {
        return true;
      }
    }
    hit := false;
  }

  /** Without empty patterns (the schema admits none), excluded means matching some pattern. */
  lemma ExcludedWithoutEmpty(base: string, patterns: seq<string>, matches: (string, string) -> bool)
    requires Util.NonEmptyTexts(patterns)
    ensures Excluded(base, patterns, matches) <==> exists k :: 0 <= k < |patterns| && matches(base, patterns[k])
  {
  }

  /** An exclusion by the patterns after an empty one is an exclusion by the whole list... */
  lemma ExcludedByTail(base: string, before: seq<string>, after: seq<string>, matches: (string, string) -> bool)
    requires Excluded(base, after, matches)
    ensures Excluded(base, before + [""] + after, matches)
  {
    var all := before + [""] + after;
    var n := |before| + 1;
    var k :| 0 <= k < |after| && after[k] != "" && matches(base, after[k]) && forall j :: k < j < |after| ==> after[j] != "";
    assert all[n + k] == after[k];
    assert forall j :: n + k < j < |all| ==> all[j] == after[j - n];
  }

  /** ...and an exclusion by the whole list comes from a pattern after the empty one. */
  lemma ExcludedOnlyByTail(base: string, before: seq<string>, after: seq<string>, matches: (string, string) -> bool)
    requires Excluded(base, before + [""] + after, matches)
    ensures Excluded(base, after, matches)
  {
    var all := before + [""] + after;
    var n := |before| + 1;
    var k :| 0 <= k < |all| && all[k] != "" && matches(base, all[k]) && forall j :: k < j < |all| ==> all[j] != "";
    assert all[|before|] == "";
    assert k >= n;
    assert after[k - n] == all[k];
    assert forall j :: k - n < j < |after| ==> after[j] == all[n + j];
  }

  /** An empty pattern hides every pattern before it from the exclude loop. */
  lemma EmptyPatternStops(base: string, before: seq<string>, after: seq<string>, matches: (string, string) -> bool)
    ensures Excluded(base, before + [""] + after, matches) <==> Excluded(base, after, matches)
  {
    if Excluded(base, before + [""] + after, matches) {
      ExcludedOnlyByTail(base, before, after, matches);
    }
    if Excluded(base, after, matches) {
      ExcludedByTail(base, before, after, matches);
    }
  }

  /** The glob matcher, the directory walk, the shell and the filesystem the copy tasks see. */
  datatype ExecResult = Ran(stdout: string, stderr: string) | Failed

  datatype Env = Env(
    fs: FileSystem,
    home: string,
    walk: string -> seq<string>,
    exec: string -> ExecResult,
    canWrite: string -> bool,
    matches: (string, string) -> bool)

  /**
   * Whether a file met in a directory source is recorded: not a symlink when
   * symlinks are off, its basename matching some include pattern when there
   * is an include list, and not excluded when there is an exclude list.
   */
  predicate Tracked(f: string, opts: Options, env: Env) {
    && !(IsSymlink(env.fs, f) && !opts.symlinks)
    && (opts.includes.Some? ==> Included(Basename(f), opts.includes.value, env.matches))
    && (opts.excludes.Some? ==> !Excluded(Basename(f), opts.excludes.value, env.matches))
  }

  /** The checks of one walked file, in the source's order, each ending the check early. */
  method ShouldTrack(f: string, opts: Options, env: Env) returns (keep: bool)
    ensures keep == Tracked(f, opts, env)
  {
    if IsSymlink(env.fs, f) && !opts.symlinks {
      return false;
    }
    var base := Basename(f);
    if opts.includes.Some? {
      var isIncluded := exists k :: 0 <= k < |opts.includes.value| && env.matches(base, opts.includes.value[k]);
      if !isIncluded {
        return false;
      }
    }
    if opts.excludes.Some? {
      var hit := ExcludeHit(base, opts.excludes.value, env.matches);
      if hit {
        return false;
      }
    }
    keep := true;
  }

  /** An entity whose `options` omit `symlinks` never records a symlink. */
  lemma OmittedSymlinksSkipped(e: Util.Entity, f: string, env: Env)
    requires e.ObjectEntity? && e.options.Some? && e.options.value.symlinks.None?
    requires IsSymlink(env.fs, f)
    ensures !Tracked(f, MergedOptions(e), env)
  {
  }

  // ---------------------------------------------------------------------------
  // Where a walked file is recorded

  /**
   * The recorded path of the walked file `rel` of the source `file`, copied
   * under `name`: the walked path with the source prefix, trailing slashes
   * removed, replaced by `name` taken literally.
   */
  function TrackedPath(file: string, rel: string, name: string): (r: string)
    ensures r == name + "/" + rel
  {
    ReplaceFirstAtStart(StripTrailingSlashes(file), "/" + rel, name);
    assert Join(file, rel) == StripTrailingSlashes(file) + ("/" + rel);
    ReplaceFirstLiteral(Join(file, rel), StripTrailingSlashes(file), name)
  }

  /**
   * The recorded path as the source computes it: the first occurrence of
   * `file` itself replaced by `name`, read as a replacement string.
   */
  function TrackedPathAsWritten(file: string, rel: string, name: string): string {
    ReplaceFirst(Join(file, rel), file, name)
  }

  /** Both agree for a source without a trailing slash and a name without `$`. */
  lemma TrackedPathAgrees(file: string, rel: string, name: string)
    requires StripTrailingSlashes(file) == file
    requires '$' !in name
    ensures TrackedPathAsWritten(file, rel, name) == TrackedPath(file, rel, name)
  {
    ReplaceFirstPlain(Join(file, rel), file, name);
  }

  /** For an absolute source with a trailing slash, `/d/` (or `~/d/`, which becomes `<home>/d/`), the walked file `v` is recorded as `dv` rather than `d/v`. */
  lemma TrackedPathTrailingSlash()
    ensures TrackedPathAsWritten("/d/", "v", "d") == "dv"
    ensures TrackedPath("/d/", "v", "d") == "d/v"
  {
    assert StripTrailingSlashes("/d/") == "/d";
    assert Join("/d/", "v") == "/d/" + "v";
    assert OccursAt("/d/v", "/d/", 0);
    ReplaceFirstAtStart("/d/", "v", "d");
  }

  /** A name holding `$&` gets the source path spliced in: `x$&` over `/d` records `v` as `x/d/v` rather than `x$&/v`. */
  lemma TrackedPathDollarName()
    ensures TrackedPathAsWritten("/d", "v", "x$&") == "x/d/v"
    ensures TrackedPath("/d", "v", "x$&") == "x$&/v"
  {
    assert StripTrailingSlashes("/d") == "/d";
    assert Join("/d", "v") == "/d" + "/v";
    ReplaceFirstAtStart("/d", "/v", "x$&");
    assert "x$&"[1..] == "$&";
    SubstitutionOfMatch("/d", "", "/v");
  }

  /** The paths a directory task records, in walk order. */
  function DirRecords(file: string, name: string, rels: seq<string>, opts: Options, env: Env): seq<string> {
    if rels == [] then []
    else
      var last := rels[|rels| - 1];
      DirRecords(file, name, rels[..|rels| - 1], opts, env)
        + (if Tracked(Join(file, last), opts, env) then [TrackedPath(file, last, name)] else [])
  }

  /** Walking one more file appends its record, if it is tracked. */
  lemma DirRecordsStep(file: string, name: string, rels: seq<string>, k: nat, opts: Options, env: Env)
    requires k < |rels|
    ensures DirRecords(file, name, rels[..k + 1], opts, env)
            == DirRecords(file, name, rels[..k], opts, env)
               + (if Tracked(Join(file, rels[k]), opts, env) then [TrackedPath(file, rels[k], name)] else [])
  {
    assert rels[..k + 1][..k] == rels[..k];
  }

  /** Some walked file `rels[k]` that `keep` accepts is recorded as `x`, that is, as `name/rels[k]`. */
  predicate RecordOf(name: string, rels: seq<string>, keep: string -> bool, x: string) {
    exists k :: 0 <= k < |rels| && keep(rels[k]) && x == name + "/" + rels[k]
  }

  /** One more walked file adds at most its own record. */
  lemma RecordOfStep(name: string, rels: seq<string>, keep: string -> bool, x: string)
    requires rels != []
    ensures RecordOf(name, rels, keep, x) <==>
              RecordOf(name, rels[..|rels| - 1], keep, x) || (keep(rels[|rels| - 1]) && x == name + "/" + rels[|rels| - 1])
  {
    var init := rels[..|rels| - 1];
    var n := |rels| - 1;
    if RecordOf(name, rels, keep, x) {
      var k :| 0 <= k < |rels| && keep(rels[k]) && x == name + "/" + rels[k];
      if k < n {
        assert init[k] == rels[k];
        assert RecordOf(name, init, keep, x);
      }
    }
    if RecordOf(name, init, keep, x) {
      var k :| 0 <= k < |init| && keep(init[k]) && x == name + "/" + init[k];
      assert init[k] == rels[k];
    }
  }

  /** A directory task records exactly the tracked walked files, each under `name`. */
  lemma {:induction false} DirRecordsMembers(file: string, name: string, rels: seq<string>, opts: Options, env: Env, x: string)
    ensures x in DirRecords(file, name, rels, opts, env) <==>
              RecordOf(name, rels, (rel: string) => Tracked(Join(file, rel), opts, env), x)
  {
    if rels != [] {
      var init := rels[..|rels| - 1];
      var last := rels[|rels| - 1];
      DirRecordsMembers(file, name, init, opts, env, x);
      RecordOfStep(name, rels, (rel: string) => Tracked(Join(file, rel), opts, env), x);
      assert TrackedPath(file, last, name) == name + "/" + last;
    }
  }

  /** A directory task records at most one path per walked file. */
  lemma {:induction false} DirRecordsBound(file: string, name: string, rels: seq<string>, opts: Options, env: Env)
    ensures |DirRecords(file, name, rels, opts, env)| <= |rels|
  {
    if rels != [] {
      DirRecordsBound(file, name, rels[..|rels| - 1], opts, env);
    }
  }

  // ---------------------------------------------------------------------------
  // What each task records

  /**
   * The paths a task appends to the project's `files`, or its error: a command
   * must run with an empty stderr and its output must be writable to `vsc/name`,
   * and then records `name`; a copy must find its source and be able to write
   * `vsc/name`, and then records the tracked files of a directory or else `name`.
   */
  function TaskRecords(vsc: string, plan: Plan, env: Env): (r: Result<seq<string>, SyncError>)
    ensures plan.CommandTask? && r.Ok? ==> r.value == [plan.name]
    ensures plan.CommandTask? ==> (r.Ok? <==> env.exec(plan.command).Ran? && env.exec(plan.command).stderr == ""
                                               && env.canWrite(Resolve(vsc, plan.name)))
    ensures plan.CommandTask? && env.exec(plan.command).Ran? && env.exec(plan.command).stderr != "" ==>
              r == Err(CommandStderr(plan.name))
    ensures plan.CopyTask? ==> (r.Ok? <==> plan.file in env.fs && env.canWrite(Resolve(vsc, plan.name)))
    ensures plan.CopyTask? && r.Err? ==> r.error == EntityFailed(plan.name, plan.index)
    ensures plan.CopyTask? && r.Ok? && !IsDir(env.fs, plan.file) ==> r.value == [plan.name]
  {
    match plan
    case CommandTask(name, command) =>
      (match env.exec(command)
       case Failed => Err(ExecFailed(command))
       case Ran(_, stderr) =>
         if stderr != "" then Err(CommandStderr(name))
         else if !env.canWrite(Resolve(vsc, name)) then Err(WriteFailed(Resolve(vsc, name)))
         else Ok([name]))
    case CopyTask(index, file, name, opts) =>
      if file !in env.fs || !env.canWrite(Resolve(vsc, name)) then Err(EntityFailed(name, index))
      else if IsDir(env.fs, file) then Ok(DirRecords(file, name, env.walk(file), opts, env))
      else Ok([name])
  }

  /** A copy task whose source is a directory records the tracked files of its walk, in walk order. */
  lemma DirectoryTaskRecords(vsc: string, plan: Plan, env: Env)
    requires plan.CopyTask? && IsDir(env.fs, plan.file)
    ensures var r := TaskRecords(vsc, plan, env);
            r.Ok? ==> r.value == DirRecords(plan.file, plan.name, env.walk(plan.file), plan.options, env)
  {
  }

  /** The tasks run one after the other: what they record until the first failure, and that failure. */
  datatype Progress = Progress(records: seq<string>, failure: Option<SyncError>)

  function RunAll(plans: seq<Plan>, vsc: string, env: Env): Progress
    decreases |plans|
  {
    if plans == [] then Progress([], None)
    else
      match TaskRecords(vsc, plans[0], env)
      case Err(e) => Progress([], Some(e))
      case Ok(records) =>
        var rest := RunAll(plans[1..], vsc, env);
        Progress(records + rest.records, rest.failure)
  }

  /** The run fails iff some task fails, and then with the error of a failing task. */
  lemma {:induction false} RunAllFailure(plans: seq<Plan>, vsc: string, env: Env)
    ensures var r := RunAll(plans, vsc, env);
            && (r.failure.None? <==> forall k :: 0 <= k < |plans| ==> TaskRecords(vsc, plans[k], env).Ok?)
            && (r.failure.Some? ==> exists k :: 0 <= k < |plans| && TaskRecords(vsc, plans[k], env) == Err(r.failure.value))
    decreases |plans|
  {
    if plans != [] {
      assert forall k :: 1 <= k < |plans| ==> plans[k] == plans[1..][k - 1];
      RunAllFailure(plans[1..], vsc, env);
      if TaskRecords(vsc, plans[0], env).Err? {
        assert TaskRecords(vsc, plans[0], env) == Err(RunAll(plans, vsc, env).failure.value);
      }
    }
  }

  /** A run that succeeds records what every task records, in task order. */
  lemma {:induction false} RunAllRecords(plans: seq<Plan>, vsc: string, env: Env, x: string)
    requires RunAll(plans, vsc, env).failure.None?
    ensures x in RunAll(plans, vsc, env).records <==>
              exists k :: 0 <= k < |plans| && TaskRecords(vsc, plans[k], env).Ok? && x in TaskRecords(vsc, plans[k], env).value
    decreases |plans|
  {
    RunAllFailure(plans, vsc, env);
    if plans != [] {
      assert forall k :: 1 <= k < |plans| ==> plans[k] == plans[1..][k - 1];
      RunAllRecords(plans[1..], vsc, env, x);
      if x in RunAll(plans, vsc, env).records && x !in TaskRecords(vsc, plans[0], env).value {
        var k :| 0 <= k < |plans[1..]| && TaskRecords(vsc, plans[1..][k], env).Ok? && x in TaskRecords(vsc, plans[1..][k], env).value;
        assert x in TaskRecords(vsc, plans[k + 1], env).value;
      }
    }
  }

  /**
   * One step of running the tasks in order: when the tasks before `i` have
   * recorded `done`, the task at `i` either fails the run or adds its records.
   */
  lemma RunAllStep(plans: seq<Plan>, i: nat, vsc: string, env: Env, done: seq<string>)
    requires i < |plans|
    requires RunAll(plans, vsc, env) == Progress(done + RunAll(plans[i..], vsc, env).records, RunAll(plans[i..], vsc, env).failure)
    ensures var t := TaskRecords(vsc, plans[i], env);
            && (t.Err? ==> RunAll(plans, vsc, env) == Progress(done, Some(t.error)))
            && (t.Ok? ==> RunAll(plans, vsc, env) == Progress((done + t.value) + RunAll(plans[i + 1..], vsc, env).records,
                                                             RunAll(plans[i + 1..], vsc, env).failure))
  {
    assert plans[i..][0] == plans[i];
    assert plans[i..][1..] == plans[i + 1..];
    var t := TaskRecords(vsc, plans[i], env);
    if t.Err? {
      assert done + [] == done;
    } else {
      var rest := RunAll(plans[i + 1..], vsc, env).records;
      assert done + (t.value + rest) == (done + t.value) + rest;
    }
  }

  // ---------------------------------------------------------------------------
  // Project selection

  const NO_PROJECT_MESSAGE := "You don't have any project. Try to run `--init`."
  const MISSING_PROJECT_MESSAGE := "The project doesn't exist."
  const MISSING_PROJECTS_MESSAGE := "One or many of the required projects doesn't exist. It has been ignored."

  /** The projects that run, and the warning printed about those dropped. */
  datatype Selection = NoProjects | Selected(toRun: seq<string>, warning: Option<string>)

  function SelectProjects(requested: seq<string>, available: seq<string>): (r: Selection)
    ensures r.NoProjects? <==> requested == []
    ensures r.Selected? ==> forall k :: 0 <= k < |r.toRun| ==> r.toRun[k] in requested && r.toRun[k] in available
    ensures r.Selected? ==> forall k :: 0 <= k < |requested| && requested[k] in available ==> requested[k] in r.toRun
    ensures r.Selected? ==> (r.warning.Some? <==> exists k :: 0 <= k < |requested| && requested[k] !in available)
    ensures r.Selected? && r.warning.Some? ==>
              r.warning.value == if |requested| == 1 then MISSING_PROJECT_MESSAGE else MISSING_PROJECTS_MESSAGE
  {
    var toRun := Seqs.Filter(requested, (p: string) => p in available);
    if |requested| == 0 then NoProjects
    else if |toRun| != |requested| then
      Selected(toRun, Some(if |requested| == 1 then MISSING_PROJECT_MESSAGE else MISSING_PROJECTS_MESSAGE))
    else Selected(toRun, None)
  }

  /** Selection keeps the order of the request. */
  lemma SelectionKeepsOrder(before: seq<string>, after: seq<string>, available: seq<string>)
    requires before != []
    ensures var r := SelectProjects(before + after, available);
            var s := SelectProjects(before, available);
            s.Selected? && r.Selected? && r.toRun == s.toRun + Seqs.Filter(after, (p: string) => p in available)
  {
    Seqs.FilterConcat(before, after, (p: string) => p in available);
  }

  // ---------------------------------------------------------------------------
  // The commit loop

  /** How the loop over the projects ended. */
  datatype LoopEnd = NotRun | Completed | StoppedAt(project: string) | CrashedAt(project: string)

  datatype CommitRun = CommitRun(updated: seq<string>, end: LoopEnd)

  /**
   * The loop as written: nothing when the shared flag is set; otherwise
   * the projects in order, updating each until one is missing from the
   * container (its `diff` is called on undefined) or has no change, where the
   * whole loop returns.
   */
  function CommitScanAsWritten(projects: seq<string>, container: map<string, Git.Status>, upToDate: bool): CommitRun {
    if upToDate then CommitRun([], NotRun) else Scan(projects, container)
  }

  function Scan(projects: seq<string>, container: map<string, Git.Status>): CommitRun
    decreases |projects|
  {
    if projects == [] then CommitRun([], Completed)
    else
      var p := projects[0];
      if p !in container then CommitRun([], CrashedAt(p))
      else if Git.ChangeCount(container[p]) == 0 then CommitRun([], StoppedAt(p))
      else
        var rest := Scan(projects[1..], container);
        CommitRun([p] + rest.updated, rest.end)
  }

  /**
   * The loop as written updates a prefix of the projects, each of them with
   * changes; it stops early only at a project without changes or without an
   * entry.
   */
  lemma {:induction false} ScanPrefix(projects: seq<string>, container: map<string, Git.Status>)
    ensures var r := Scan(projects, container);
            && |r.updated| <= |projects| && r.updated == projects[..|r.updated|]
            && (forall k :: 0 <= k < |r.updated| ==> r.updated[k] in container && Git.ChangeCount(container[r.updated[k]]) > 0)
            && (r.end.Completed? <==> |r.updated| == |projects|)
            && (r.end.StoppedAt? ==> r.end.project == projects[|r.updated|] && r.end.project in container
                                     && Git.ChangeCount(container[r.end.project]) == 0)
            && (r.end.CrashedAt? ==> r.end.project == projects[|r.updated|] && r.end.project !in container)
            && !r.end.NotRun?
    decreases |projects|
  {
    if projects != [] && projects[0] in container && Git.ChangeCount(container[projects[0]]) > 0 {
      ScanPrefix(projects[1..], container);
    }
  }

  /** A project the loop should update: it was checked, and it has changes. */
  predicate Dirty(container: map<string, Git.Status>, p: string) {
    p in container && Git.ChangeCount(container[p]) > 0
  }

  /**
   * The loop as the comment above it means it: every project that was checked
   * and has changes is updated, in order, and the others are skipped.
   */
  function CommitTargets(projects: seq<string>, container: map<string, Git.Status>): seq<string> {
    if projects == [] then []
    else
      var last := projects[|projects| - 1];
      CommitTargets(projects[..|projects| - 1], container) + (if Dirty(container, last) then [last] else [])
  }

  /** One more project extends the targets by that project, if it is dirty. */
  lemma CommitTargetsStep(projects: seq<string>, i: nat, container: map<string, Git.Status>)
    requires i < |projects|
    ensures CommitTargets(projects[..i + 1], container)
            == CommitTargets(projects[..i], container) + (if Dirty(container, projects[i]) then [projects[i]] else [])
  {
    assert projects[..i + 1][..i] == projects[..i];
  }

  /** The corrected loop updates exactly the checked projects with changes. */
  lemma {:induction false} CommitTargetsMembers(projects: seq<string>, container: map<string, Git.Status>, p: string)
    ensures p in CommitTargets(projects, container) <==> p in projects && Dirty(container, p)
  {
    if projects != [] {
      var init := projects[..|projects| - 1];
      CommitTargetsMembers(init, container, p);
      assert projects == init + [projects[|projects| - 1]];
    }
  }

  /** The corrected loop keeps the request order: it updates a subsequence of the projects. */
  lemma {:induction false} CommitTargetsConcat(a: seq<string>, b: seq<string>, container: map<string, Git.Status>)
    ensures CommitTargets(a + b, container) == CommitTargets(a, container) + CommitTargets(b, container)
    decreases |b|
  {
    if b != [] {
      var init := b[..|b| - 1];
      assert (a + b)[..|a + b| - 1] == a + init;
      assert (a + b)[|a + b| - 1] == b[|b| - 1];
      CommitTargetsConcat(a, init, container);
    } else {
      assert a + b == a;
    }
  }

  /** When every project has changes, the written loop updates them all and completes... */
  lemma {:induction false} ScanAllDirty(projects: seq<string>, container: map<string, Git.Status>)
    requires forall k :: 0 <= k < |projects| ==> Dirty(container, projects[k])
    ensures Scan(projects, container) == CommitRun(projects, Completed)
    decreases |projects|
  {
    if projects != [] {
      assert Dirty(container, projects[0]);
      assert forall k :: 0 <= k < |projects[1..]| ==> projects[1..][k] == projects[k + 1];
      ScanAllDirty(projects[1..], container);
      assert [projects[0]] + projects[1..] == projects;
    }
  }

  /** ...and so does the corrected loop. */
  lemma {:induction false} TargetsAllDirty(projects: seq<string>, container: map<string, Git.Status>)
    requires forall k :: 0 <= k < |projects| ==> Dirty(container, projects[k])
    ensures CommitTargets(projects, container) == projects
    decreases |projects|
  {
    if projects != [] {
      var init := projects[..|projects| - 1];
      assert Dirty(container, projects[|projects| - 1]);
      assert forall k :: 0 <= k < |init| ==> init[k] == projects[k];
      TargetsAllDirty(init, container);
      assert init + [projects[|projects| - 1]] == projects;
    }
  }

  /**
   * A first project without changes stops the written loop before a second
   * project with changes. The container stands for what `diff` reports when
   * the loop runs: one the checks built never holds a clean project
   * (CheckedScanNeverStops), so this needs a working tree that became clean
   * after its check.
   */
  lemma CleanProjectStopsLoop()
    ensures var container := map["a" := Git.Status([], [], [], []), "b" := Git.Status(["x"], [], [], [])];
            && CommitScanAsWritten(["a", "b"], container, false) == CommitRun([], StoppedAt("a"))
            && CommitTargets(["a", "b"], container) == ["b"]
  {
    var container := map["a" := Git.Status([], [], [], []), "b" := Git.Status(["x"], [], [], [])];
    assert Git.ChangeCount(container["a"]) == 0;
    assert Git.ChangeCount(container["b"]) == 1;
    assert ["a", "b"][1..] == ["b"];
    assert ["a", "b"][..1] == ["a"];
    assert ["a"][..0] == [];
  }

  /**
   * A first project with no container entry makes the written loop crash: one
   * without entities, which is never checked, or an up-to-date one when a
   * changed project's check finished last (so the flag is clear).
   */
  lemma UncheckedProjectCrashesLoop()
    ensures var container := map["b" := Git.Status(["x"], [], [], [])];
            && CommitScanAsWritten(["a", "b"], container, false) == CommitRun([], CrashedAt("a"))
            && CommitTargets(["a", "b"], container) == ["b"]
  {
    var container := map["b" := Git.Status(["x"], [], [], [])];
    assert Git.ChangeCount(container["b"]) == 1;
    assert ["a", "b"][1..] == ["b"];
    assert ["a", "b"][..1] == ["a"];
    assert ["a"][..0] == [];
  }
  // ---------------------------------------------------------------------------
  // The shared verdict

  /** A check that finished: the project's name and the status it found. */
  datatype Check = Check(project: string, status: Git.Status)

  /** What the checks leave in the shared context: the statuses of the projects entered, and the `upToDate` flag. */
  datatype Shared = Shared(container: map<string, Git.Status>, upToDate: bool)

  /**
   * The context after the checks that passed, in the order they finished,
   * starting from the one `runTask` hands in (empty, up to date): as in
   * RecordVerdict, each check overwrites the flag with its own verdict, and
   * one that found changes enters its project.
   */
  function AfterChecks(checks: seq<Check>): Shared {
    if checks == [] then Shared(map[], true)
    else CheckStep(AfterChecks(checks[..|checks| - 1]), checks[|checks| - 1])
  }

  /** What one passing check does to the shared context: RecordVerdict, with the verdict CheckProject passes it, does exactly this. */
  function CheckStep(before: Shared, c: Check): Shared {
    if Git.ChangeCount(c.status) == 0 then Shared(before.container, true)
    else Shared(before.container[c.project := c.status], false)
  }

  /**
   * A run of checks, each ending in RecordVerdict, leaves the context the fold
   * describes: starting from the constructor's context, and with every call's
   * state being CheckStep of the state before, the state after the last call is
   * AfterChecks of the checks in the order they finished.
   */
  lemma {:induction false} RecordedChecks(states: seq<Shared>, checks: seq<Check>)
    requires |states| == |checks| + 1
    requires states[0] == Shared(map[], true)
    requires forall i :: 0 <= i < |checks| ==> states[i + 1] == CheckStep(states[i], checks[i])
    ensures states[|checks|] == AfterChecks(checks)
  {
    if checks != [] {
      var n := |checks| - 1;
      RecordedChecks(states[..n + 1], checks[..n]);
      assert checks[..n] == checks[..|checks| - 1];
    }
  }

  /** One more check adds at most its own finding. */
  lemma FoundChangesStep(checks: seq<Check>, p: string)
    requires checks != []
    ensures FoundChanges(checks, p) <==>
              FoundChanges(checks[..|checks| - 1], p)
              || (checks[|checks| - 1].project == p && Git.ChangeCount(checks[|checks| - 1].status) > 0)
  {
    var init := checks[..|checks| - 1];
    if FoundChanges(checks, p) {
      var k :| 0 <= k < |checks| && checks[k].project == p && Git.ChangeCount(checks[k].status) > 0;
      if k < |init| {
        assert init[k] == checks[k];
      }
    }
    if FoundChanges(init, p) {
      var k :| 0 <= k < |init| && init[k].project == p && Git.ChangeCount(init[k].status) > 0;
      assert init[k] == checks[k];
    }
  }

  /**
   * The flag is the verdict of the last check alone; the container holds
   * exactly the projects some check found with changes, each with its changes.
   */
  lemma {:induction false} AfterChecksMeaning(checks: seq<Check>, q: string)
    ensures AfterChecks(checks).upToDate <==> checks == [] || Git.ChangeCount(checks[|checks| - 1].status) == 0
    ensures q in AfterChecks(checks).container <==> FoundChanges(checks, q)
    ensures q in AfterChecks(checks).container ==> Dirty(AfterChecks(checks).container, q)
  {
    if checks != [] {
      AfterChecksMeaning(checks[..|checks| - 1], q);
      FoundChangesStep(checks, q);
    }
  }

  /** The written loop never reaches its `return` on a context the checks built, since every entry has changes. */
  lemma CheckedScanNeverStops(checks: seq<Check>, projects: seq<string>)
    ensures !Scan(projects, AfterChecks(checks).container).end.StoppedAt?
  {
    var r := Scan(projects, AfterChecks(checks).container);
    ScanPrefix(projects, AfterChecks(checks).container);
    if r.end.StoppedAt? {
      AfterChecksMeaning(checks, r.end.project);
    }
  }

  /** A clean project whose check finishes after one with changes hides those changes from the written loop. */
  lemma LastCleanCheckHidesChanges()
    ensures var s := AfterChecks([Check("b", Git.Status(["x"], [], [], [])), Check("a", Git.Status([], [], [], []))]);
            && s == Shared(map["b" := Git.Status(["x"], [], [], [])], true)
            && CommitScanAsWritten(["a", "b"], s.container, s.upToDate) == CommitRun([], NotRun)
            && CommitTargets(["a", "b"], s.container) == ["b"]
  {
    var checks := [Check("b", Git.Status(["x"], [], [], [])), Check("a", Git.Status([], [], [], []))];
    assert checks[..1] == [checks[0]];
    assert checks[..1][..0] == [];
    assert Git.ChangeCount(checks[0].status) == 1;
    assert Git.ChangeCount(checks[1].status) == 0;
    var container := map["b" := Git.Status(["x"], [], [], [])];
    assert ["a", "b"][..1] == ["a"];
    assert ["a"][..0] == [];
    assert Git.ChangeCount(container["b"]) == 1;
  }

  /** Some check found the project `p` with changes. */
  predicate FoundChanges(checks: seq<Check>, p: string) {
    exists k :: 0 <= k < |checks| && checks[k].project == p && Git.ChangeCount(checks[k].status) > 0
  }

  /**
   * The corrected loop updates nothing exactly when no requested project was
   * found with changes, whatever order the checks finished in.
   */
  lemma CleanChecksCommitNothing(checks: seq<Check>, projects: seq<string>)
    ensures CommitTargets(projects, AfterChecks(checks).container) == [] <==>
              forall j :: 0 <= j < |projects| ==> !FoundChanges(checks, projects[j])
  {
    var c := AfterChecks(checks).container;
    var t := CommitTargets(projects, c);
    if t != [] {
      CommitTargetsMembers(projects, c, t[0]);
      AfterChecksMeaning(checks, t[0]);
      var j :| 0 <= j < |projects| && projects[j] == t[0];
      assert FoundChanges(checks, projects[j]);
    } else {
      forall j | 0 <= j < |projects|
        ensures !FoundChanges(checks, projects[j])
      {
        AfterChecksMeaning(checks, projects[j]);
        CommitTargetsMembers(projects, c, projects[j]);
      }
    }
  }



  // ---------------------------------------------------------------------------
  // The tasks, run against a project

  /** The walk callback of a directory task: record, in walk order, each walked file that passes the filter. */
  method TrackDirectory(project: Git.ProjectFactory, file: string, name: string, opts: Options, env: Env)
    modifies project`files
    ensures project.files == old(project.files) + DirRecords(file, name, env.walk(file), opts, env)
  {
    var rels := env.walk(file);
    for k := 0 to |rels|
      invariant project.files == old(project.files) + DirRecords(file, name, rels[..k], opts, env)
    {
      DirRecordsStep(file, name, rels, k, opts, env);
      var keep := ShouldTrack(Join(file, rels[k]), opts, env);
      if keep {
        project.Add(TrackedPath(file, rels[k], name));
      }
    }
    assert rels[..|rels|] == rels;
  }

  /** One task of the copy list, recording into the project what `TaskRecords` says, or failing and recording nothing. */
  method RunTask(project: Git.ProjectFactory, plan: Plan, env: Env) returns (r: Outcome<SyncError>)
    requires project.IsOpen()
    modifies project`files
    ensures var t := TaskRecords(project.vsc.value, plan, env);
            && (t.Err? ==> r == Fail(t.error) && project.files == old(project.files))
            && (t.Ok? ==> r == Pass && project.files == old(project.files) + t.value)
  {
    var vsc := project.vsc.value;
    match plan
    case CommandTask(name, command) =>
      var result := env.exec(command);
      if result.Failed? {
        return Fail(ExecFailed(command));
      }
      if result.stderr != "" {
        return Fail(CommandStderr(name));
      }
      var target := Resolve(vsc, name);
      if !env.canWrite(target) {
        return Fail(WriteFailed(target));
      }
      project.Add(name);
      r := Pass;
    case CopyTask(index, file, name, opts) =>
      if file !in env.fs || !env.canWrite(Resolve(vsc, name)) {
        return Fail(EntityFailed(name, index));
      }
      if IsDir(env.fs, file) {
        TrackDirectory(project, file, name, opts, env);
      } else {
        project.Add(name);
      }
      r := Pass;
  }

  /** The sync list, grown as `copyFiles` grows it: the entities and the readme, then the configuration when asked for. */
  method BuildSyncList(c: Util.ProjectConfig, dir: string) returns (items: seq<Item>)
    ensures items == SyncItems(c, dir)
  {
    items := Seqs.Map(c.entities, (e: Util.Entity) => Declared(e)) + [ReadmeItem(c.readme)];
    if c.syncConfig {
      items := items + [ConfigItem(dir)];
    }
  }

  /** The task list, run in order until a task fails. */
  method RunTasks(project: Git.ProjectFactory, tasks: seq<Plan>, env: Env) returns (r: Outcome<SyncError>)
    requires project.IsOpen()
    modifies project`files
    ensures var run := RunAll(tasks, project.vsc.value, env);
            && project.files == old(project.files) + run.records
            && (run.failure.None? ==> r == Pass)
            && (run.failure.Some? ==> r == Fail(run.failure.value))
  {
    var vsc := project.vsc.value;
    ghost var done: seq<string> := [];
    var i := 0;
    assert tasks[0..] == tasks;
    while i < |tasks|
      invariant 0 <= i <= |tasks|
      invariant project.IsOpen() && project.vsc.value == vsc
      invariant project.files == old(project.files) + done
      invariant RunAll(tasks, vsc, env) == Progress(done + RunAll(tasks[i..], vsc, env).records, RunAll(tasks[i..], vsc, env).failure)
    {
      RunAllStep(tasks, i, vsc, env, done);
      ghost var step := TaskRecords(vsc, tasks[i], env);
      var t := RunTask(project, tasks[i], env);
      if t.Fail? {
        return t;
      }
      done := done + step.value;
      i := i + 1;
    }
    assert tasks[i..] == [];
    assert done + [] == done;
    r := Pass;
  }

  /**
   * `copyFiles`: build the sync list, turn it into tasks (the first unresolvable
   * item fails them all), then run the tasks in order until one fails.
   */
  method CopyFiles(project: Git.ProjectFactory, env: Env) returns (r: Outcome<SyncError>)
    requires project.IsOpen()
    modifies project`files
    ensures var dir := project.Dir();
            var plans := Plans(SyncItems(project.config.value, dir), dir, env.home);
            && (plans.Err? ==> r == Fail(plans.error) && project.files == old(project.files))
            && (plans.Ok? ==> var run := RunAll(plans.value, project.vsc.value, env);
                              && project.files == old(project.files) + run.records
                              && (run.failure.None? ==> r == Pass)
                              && (run.failure.Some? ==> r == Fail(run.failure.value)))
  {
    var dir := project.Dir();
    var items := BuildSyncList(project.config.value, dir);
    var plans := Plans(items, dir, env.home);
    if plans.Err? {
      return Fail(plans.error);
    }
    r := RunTasks(project, plans.value, env);
  }

  // ---------------------------------------------------------------------------
  // The checked projects

  /** The context the runs share: the projects found to have changes, and the verdict of the last check. */
  class RunContext {
    var container: map<string, Git.ProjectFactory>
    var upToDate: bool

    constructor ()
      ensures container == map[] && upToDate
      ensures Valid()
    {
      container := map[];
      upToDate := true;
    }

    /** Every project in the container is open, on a repository of its own. */
    predicate Valid()
      reads this, container.Values
    {
      OwnRepos(container)
    }

    /** The repositories of the projects in the container. */
    function Repos(): set<Git.Repo>
      reads this, container.Values
      requires Valid()
    {
      set q | q in container :: container[q].repo
    }

    /** The status each project in the container reports. */
    function Statuses(): (m: map<string, Git.Status>)
      reads this, container.Values, Repos()
      requires Valid()
      ensures m.Keys == container.Keys
      ensures forall q :: q in m ==> m[q] == container[q].repo.status
    {
      StatusesOf(container)
    }
  }

  /** Every project of `c` is open, on a repository of its own. */
  predicate OwnRepos(c: map<string, Git.ProjectFactory>)
    reads c.Values
  {
    && (forall q :: q in c ==> c[q].IsOpen())
    && (forall a, b :: a in c && b in c && a != b ==> c[a].repo != c[b].repo)
  }

  /** The status the repository of each project of `c` reports. */
  function StatusesOf(c: map<string, Git.ProjectFactory>): (m: map<string, Git.Status>)
    reads c.Values, set q | q in c :: c[q].repo
    requires OwnRepos(c)
    ensures m.Keys == c.Keys
    ensures forall q :: q in m ==> m[q] == c[q].repo.status
  {
    map q | q in c :: c[q].repo.status
  }

  /** Entering an open project on a repository no other entry uses keeps every repository its own, and replaces its name's status. */
  lemma EntryKeepsOwnRepos(c: map<string, Git.ProjectFactory>, project: Git.ProjectFactory)
    requires OwnRepos(c) && project.IsOpen()
    requires forall q :: q in c && q != project.projectName ==> c[q].repo != project.repo
    ensures OwnRepos(c[project.projectName := project])
    ensures StatusesOf(c[project.projectName := project]) == StatusesOf(c)[project.projectName := project.repo.status]
  {
  }

  /** No other project in the container works on the repository of `project`. */
  predicate Unshared(project: Git.ProjectFactory, ctx: RunContext)
    reads project, ctx, ctx.container.Values
  {
    forall q :: q in ctx.container && q != project.projectName ==> ctx.container[q].repo != project.repo
  }

  /** The end of the check: an up-to-date project sets the shared verdict, any other enters the container and clears it. */
  method RecordVerdict(project: Git.ProjectFactory, clean: bool, ctx: RunContext)
    requires project.IsOpen()
    requires ctx.Valid() && Unshared(project, ctx)
    modifies ctx
    ensures ctx.Valid()
    ensures (clean <==> Git.ChangeCount(project.repo.status) == 0) ==>
              Shared(ctx.Statuses(), ctx.upToDate)
              == CheckStep(Shared(old(ctx.Statuses()), old(ctx.upToDate)), Check(project.projectName, project.repo.status))
    ensures clean ==> ctx.upToDate && ctx.container == old(ctx.container)
    ensures !clean ==> !ctx.upToDate && ctx.container == old(ctx.container)[project.projectName := project]
  {
    if clean {
      var lastChangeTime := project.GetLastChange();
      MarkUpToDate(ctx);
    } else {
      Enter(project, ctx);
    }
  }

  /** An up-to-date verdict: the flag is set and the container kept. */
  method MarkUpToDate(ctx: RunContext)
    requires ctx.Valid()
    modifies ctx
    ensures ctx.Valid() && ctx.upToDate && ctx.container == old(ctx.container)
    ensures ctx.Statuses() == old(ctx.Statuses())
  {
    ctx.upToDate := true;
  }

  /** A verdict with changes: the project enters the container under its name and the flag is cleared. */
  method Enter(project: Git.ProjectFactory, ctx: RunContext)
    requires project.IsOpen()
    requires ctx.Valid() && Unshared(project, ctx)
    modifies ctx
    ensures ctx.Valid() && !ctx.upToDate && ctx.container == old(ctx.container)[project.projectName := project]
    ensures ctx.Statuses() == old(ctx.Statuses())[project.projectName := project.repo.status]
  {
    var c := ctx.container;
    EntryKeepsOwnRepos(c, project);
    ghost var entered := StatusesOf(c[project.projectName := project]);
    ctx.upToDate := false;
    ctx.container := c[project.projectName := project];
    assert ctx.Valid();
    assert ctx.Statuses() == entered;
  }

  /**
   * The "Check the project" step: reconcile the project's files with its last
   * commit; an up-to-date project sets the shared verdict, any other is put in
   * the container under its name and clears it.
   */
  method CheckProject(project: Git.ProjectFactory, fs: FileSystem, ctx: RunContext) returns (r: Outcome<Git.GitError>)
    requires project.IsOpen()
    requires ctx.Valid() && Unshared(project, ctx)
    modifies project.repo`log, ctx
    ensures ctx.Valid()
    ensures var removed := project.Removal(fs);
            && (removed.Err? ==> r == Fail(removed.error) && ctx.container == old(ctx.container) && ctx.upToDate == old(ctx.upToDate))
            && (removed.Ok? ==> r == Pass && project.repo.log == old(project.repo.log) + Git.StagingOps(removed.value, project.files))
            && (removed.Ok? && Git.ChangeCount(project.repo.status) == 0 ==> ctx.upToDate && ctx.container == old(ctx.container))
            && (removed.Ok? && Git.ChangeCount(project.repo.status) > 0 ==>
                  !ctx.upToDate && ctx.container == old(ctx.container)[project.projectName := project])
  {
    ghost var removed := project.Removal(fs);
    var clean := project.IsUpToDate(fs);
    if clean.Err? {
      return Fail(clean.error);
    }
    assert removed.Ok? && (clean.value <==> Git.ChangeCount(project.repo.status) == 0);
    RecordVerdict(project, clean.value, ctx);
    r := Pass;
  }

  /** The operations `update` records on a project's repository. */
  function UpdateOps(autoCommit: bool, answer: string): seq<Git.GitOp> {
    [Git.GitOp.Commit(if autoCommit then Git.DEFAULT_MESSAGE else answer), Git.GitOp.Push(Git.PUSH_REMOTE, Git.PUSH_BRANCH, true)]
  }

  /** What the loop appends to the repository of `q`: one update per time `q` occurs in `updated`. */
  function UpdateLog(q: string, updated: seq<string>, autoCommit: bool, answers: string -> string): seq<Git.GitOp> {
    if updated == [] then []
    else
      UpdateLog(q, updated[..|updated| - 1], autoCommit, answers)
        + (if updated[|updated| - 1] == q then UpdateOps(autoCommit, answers(q)) else [])
  }

  /** Updating one more project appends its operations to its own repository's expected log only. */
  lemma UpdateLogSnoc(q: string, updated: seq<string>, p: string, autoCommit: bool, answers: string -> string)
    ensures UpdateLog(q, updated + [p], autoCommit, answers)
            == UpdateLog(q, updated, autoCommit, answers) + (if p == q then UpdateOps(autoCommit, answers(q)) else [])
  {
    assert (updated + [p])[..|updated|] == updated;
  }

  /** One turn of the loop: update the project named `p` if it has an entry and changes. */
  method UpdateIfDirty(ctx: RunContext, p: string, autoCommit: bool, answer: string) returns (did: bool)
    requires ctx.Valid()
    modifies ctx.Repos()
    ensures did <==> p in ctx.container && Git.ChangeCount(ctx.container[p].repo.status) > 0
    ensures forall q :: q in ctx.container ==>
              ctx.container[q].repo.log == old(ctx.container[q].repo.log) + (if did && q == p then UpdateOps(autoCommit, answer) else [])
  {
    did := false;
    if p in ctx.container {
      var project := ctx.container[p];
      var diff := project.Diff();
      if Git.ChangeCount(diff) > 0 {
        var _ := project.Update(autoCommit, answer);
        did := true;
      }
    }
  }

  /** The expected log of `q` after one more loop turn, given the log before it and the turn's effect. */
  lemma LogStep(start: seq<Git.GitOp>, before: seq<Git.GitOp>, now: seq<Git.GitOp>, q: string, updated: seq<string>, p: string, autoCommit: bool, answers: string -> string)
    requires before == start + UpdateLog(q, updated, autoCommit, answers)
    requires now == before + (if q == p then UpdateOps(autoCommit, answers(p)) else [])
    ensures now == start + UpdateLog(q, updated + [p], autoCommit, answers)
  {
    UpdateLogSnoc(q, updated, p, autoCommit, answers);
  }

  /** One turn of the loop, carrying what the loop knows: the projects updated so far and every repository's log. */
  method CommitStep(ctx: RunContext, projects: seq<string>, i: nat, autoCommit: bool, answers: string -> string, updated: seq<string>,
                    ghost statuses: map<string, Git.Status>, ghost start: map<string, seq<Git.GitOp>>)
    returns (next: seq<string>)
    requires i < |projects|
    requires ctx.Valid()
    requires statuses.Keys == ctx.container.Keys && start.Keys == ctx.container.Keys
    requires forall q :: q in ctx.container ==> ctx.container[q].repo.status == statuses[q]
    requires updated == CommitTargets(projects[..i], statuses)
    requires forall q :: q in ctx.container ==> ctx.container[q].repo.log == start[q] + UpdateLog(q, updated, autoCommit, answers)
    modifies ctx.Repos()
    ensures ctx.Valid()
    ensures forall q :: q in ctx.container ==> ctx.container[q].repo.status == statuses[q]
    ensures next == CommitTargets(projects[..i + 1], statuses)
    ensures forall q :: q in ctx.container ==> ctx.container[q].repo.log == start[q] + UpdateLog(q, next, autoCommit, answers)
  {
    var p := projects[i];
    CommitTargetsStep(projects, i, statuses);
    var did := UpdateIfDirty(ctx, p, autoCommit, answers(p));
    next := updated;
    if did {
      forall q | q in ctx.container
        ensures ctx.container[q].repo.log == start[q] + UpdateLog(q, updated + [p], autoCommit, answers)
      {
        LogStep(start[q], old(ctx.container[q].repo.log), ctx.container[q].repo.log, q, updated, p, autoCommit, answers);
      }
      next := updated + [p];
    }
  }

  /**
   * The commit loop of `runTask`, corrected: the early `return` is read as the
   * skip its comment announces, and the shared `upToDate` flag, which holds
   * only the verdict of the check that finished last, no longer ends the run.
   * Each project with an entry and changes is updated, in order; `answers`
   * gives the prompted commit message per project. A failed update is
   * reported and the loop goes on.
   */
  method CommitLoop(projects: seq<string>, ctx: RunContext, autoCommit: bool, answers: string -> string)
    returns (updated: seq<string>)
    requires ctx.Valid()
    modifies ctx.Repos()
    ensures updated == CommitTargets(projects, old(ctx.Statuses()))
    ensures forall q :: q in ctx.container ==>
              ctx.container[q].repo.log == old(ctx.container[q].repo.log) + UpdateLog(q, updated, autoCommit, answers)
  {
    updated := [];
    ghost var statuses := ctx.Statuses();
    ghost var start := map q | q in ctx.container :: ctx.container[q].repo.log;
    for i := 0 to |projects|
      invariant ctx.Valid()
      invariant forall q :: q in ctx.container ==> ctx.container[q].repo.status == statuses[q]
      invariant updated == CommitTargets(projects[..i], statuses)
      invariant forall q :: q in ctx.container ==> ctx.container[q].repo.log == start[q] + UpdateLog(q, updated, autoCommit, answers)
    {
      updated := CommitStep(ctx, projects, i, autoCommit, answers, updated, statuses, start);
    }
    assert projects[..|projects|] == projects;
  }
}
