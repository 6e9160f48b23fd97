# gbck sync engine, modelled in Dafny

gbck keeps dotfiles and other files in a git repository per project. Each project lives in
`~/.gbck/<project>`. It has a `config` file (JSON) and a `.vsc` working tree that is cloned from
the project's remote. A sync run takes these steps:

1. It opens each requested project.
2. It fetches and hard-resets the `.vsc` tree.
3. It copies every declared entity into the tree. This is the `copyFiles` step.
4. It records which files the run produced.
5. It reconciles those files with the last commit: files that are no longer produced are removed from the index, and the produced ones are staged.
6. It asks git whether anything changed.
7. After all projects are checked, it commits and force-pushes each project that has changes.

This project models the decision logic of that run and proves what it promises:

- `Util` is the project store. It models:
  - the joi schema of `config`, as a parser from a JSON `Value` to a typed `ProjectConfig`, with the schema's defaults filled in;
  - the order of the checks in `getProjectConfig`, each with its own error;
  - the listing of available projects.
- `Git` is the snapshot state machine.
  - `Repo` is an abstract `simple-git` handle. It answers `ls-tree`, `status` and the remote's reachability from its state, and it records every operation asked of it in `log`.
  - `ProjectFactory` is the class with the `files` accumulator and with `vsc`, `config` and `repo`. `open`, `add`, `diff`, `update`, `isUpToDate` and `getLastChange` are its methods.
- `SyncProject` is the sync command. It models:
  - the sync list;
  - how each entity becomes a task (a shell command, or a source path with a destination name and merged options);
  - which walked files of a directory source get recorded (the symlink, include and exclude checks, and the prefix rewrite);
  - what each task records, and running the tasks until one fails;
  - which requested projects run;
  - the "Check the project" step, which fills the shared context;
  - the commit loop over the checked projects.
- `Paths` and `Seqs` hold the parts of Node.js and of `Array.prototype` the engine relies on: `path.basename`, `path.resolve`, `path.join`, `untildify`, `String.prototype.split` and `replace`, `filter` and `map`. They work on POSIX paths. The file system is a map from a path to its kind (`File`, `Dir`, `Symlink`).

Inputs the engine gets from outside are parameters: the home directory, file contents, the JSON parser, the URL pattern, glob matching (`matches`), the directory walk, the shell (`exec`), whether a target can be written, and the prompted commit messages.

Places where the code does something other than the prose around it:

- **A missing readme fails the sync.** `copyFiles` always appends `project.readme`. When the configuration has no `readme`, that element is `undefined` and fails with "Unknown type of entity". `MissingReadmeFails` states this.
- **Push ignores the configured branch.** `update` always pushes to `origin master`, whatever `branch` the configuration names. See `Git.ProjectFactory.Update`.
- **Options are replaced, not merged.** An entity's `options` object replaces the defaults as a whole, so an omitted `symlinks` means symlinks are skipped. See `MergedOptions` and `OmittedSymlinksSkipped`.
- **One empty exclude pattern hides the earlier ones.** The exclude loop stops at the first falsy pattern it pops. The schema refuses the empty string, so an accepted configuration never hits this. See `EmptyPatternStops` and `ExcludedWithoutEmpty`.

## Model

| member | source | states |
|---|---|---|
| Seqs.Filter | src/git.js:128-133 | the result holds only accepted elements of the input, every accepted element appears in it, and it is as long as the input iff every element is accepted |
| Seqs.FilterConcat | src/commands/syncProject.js:253 | filtering a concatenation is the concatenation of the filtered parts, so `filter` keeps the input order |
| Seqs.FilterKeepsAll | src/git.js:128 | a filter that accepts every element returns its input unchanged |
| Seqs.Map | src/git.js:132 | the result has the input's length and element k is the function applied to input element k |
| Seqs.MapConcat | src/git.js:132 | mapping a concatenation is the concatenation of the mapped parts |
| Seqs.FilterFirst | src/git.js:133 | the first element a filter keeps is an input element that every earlier element failed |
| Paths.StripTrailingSlashes | src/commands/syncProject.js:98 | the result is a prefix of the path with no trailing slash, and only slashes were dropped |
| Paths.IsAbsolute | src/commands/syncProject.js:95 | `path.isAbsolute` on POSIX: the path starts with a slash; no contract of its own, `Resolve` and `ResolveEntity` state what an absolute source keeps |
| Paths.Basename | src/commands/syncProject.js:98 | `path.basename` has no slash in it and is no longer than the path |
| Paths.BasenameIsLastSegment | src/commands/syncProject.js:98 | `path.basename` is the longest slash-free suffix of the path with its trailing slashes dropped: all of it, or the part after its last slash; a path without slashes is its own basename |
| Paths.BasenameOfChild | src/commands/syncProject.js:95-98 | a source resolved under the project directory keeps the basename of the relative path |
| Paths.Untildify | src/commands/syncProject.js:94 | a path without a leading `~`, or an unknown home, is left alone; `~` becomes the home directory, and `~/x` becomes home followed by `/x` |
| Paths.Resolve | src/commands/syncProject.js:95-96 | an absolute path stays absolute; a relative one is put under the base, trailing slashes dropped |
| Paths.Join | src/commands/syncProject.js:106 | the `path.join(dir, rel)` recursive-readdir gives each walked file: the directory without trailing slashes, a slash, then `rel`; no contract of its own, `TrackedPathAgrees`, `TrackedPathTrailingSlash` and `BasenameOfChild` state what it gives |
| Paths.Parent | src/git.js:46 | `path.resolve(vsc, '..')`: everything before the last slash; no contract of its own, `ParentOfChild` and `DirOfRepositoryPath` state its value |
| Paths.ParentOfChild | src/git.js:45-47 | the parent of `a/b`, for a segment `b`, is `a` |
| Paths.IndexOf | src/git.js:156 | the result is the first position at or after `from` where the pattern occurs, or none when it occurs nowhere there |
| Paths.Substitution | src/commands/syncProject.js:133 | the text `replace` inserts; its contract states that a replacement without `$` is inserted as it is, and `SubstitutionOfMatch` and `SubstitutionOfPatterns` state the four `$` patterns |
| Paths.SubstitutionOfMatch | src/commands/syncProject.js:133 | the replacement `$&` inserts the matched text |
| Paths.SubstitutionOfPatterns | src/commands/syncProject.js:133 | the replacement `$$` inserts one dollar, `` $` `` the text before the match and `$'` the text after it |
| Paths.ReplaceFirstPlain | src/commands/syncProject.js:133 | `replace` with a replacement that holds no `$` inserts it literally |
| Paths.ReplaceFirstAtStart | src/commands/syncProject.js:133 | on a string that starts with the pattern, a literal replacement swaps exactly that prefix, and `replace` puts the substitution of its replacement, with nothing before the match and the rest after it, in place of that prefix |
| Paths.ReplaceFirst | src/commands/syncProject.js:133 | `String.prototype.replace` with a string pattern: the first occurrence is replaced by the substitution of the replacement; no contract of its own, its meaning is stated by `ReplaceFirstPlain`, `ReplaceFirstAtStart` and `ReplaceFirstAbsent` |
| Paths.ReplaceFirstAbsent | src/git.js:156 | `replace` leaves a string without the pattern unchanged |
| Paths.Split | src/git.js:128 | `split` gives at least one piece, no piece contains the separator, and joining the pieces with the separator gives the input back |
| Paths.JoinWith | src/git.js:128 | the pieces joined with the separator between them; no contract of its own, it is the inverse `Split` is stated against |
| Paths.Lines | src/git.js:128 | the lines kept are non-empty and newline-free |
| Paths.LinesOfListing | src/git.js:128 | a listing of non-empty, newline-free names, one per line, reads back as exactly those names in order |
| Paths.SplitUnlines | src/git.js:128 | newline-free names joined with a newline after each split back into those names and one empty last piece |
| Util.Texts | src/util.js:25-26 | a string list is accepted iff every item is a non-empty string, and then it holds those strings in order |
| Util.ParseEntities | src/util.js:15-29 | `entities` is accepted iff every item matches one of the three shapes, and then it holds those entities in order |
| Util.ParseOptions | src/util.js:23-27 | an accepted `options` is an object with no keys but `symlinks`, `include` and `exclude`, and it sets `symlinks` iff the document has that key |
| Util.ParseEntity | src/util.js:17-28 | a string entity is accepted as itself and only when non-empty; an accepted object has no keys but `i`, `o` and `options` and takes `i` and `o` from the document; null, booleans and numbers are refused |
| Util.ParseConfig | src/util.js:10-31 | an accepted configuration is an object with no unknown keys and an `entities` array; its full meaning is stated by `ParseConfigRoundTrip`, `ParseConfigKeepsDocument`, `ParseConfigDefaults` and `EntitiesRequired` |
| Util.TextsRoundTrip | src/util.js:19 | a list of non-empty strings written as JSON is accepted unchanged |
| Util.TextsValueBack | src/util.js:19 | an accepted string list is exactly the JSON of what it yields |
| Util.EntityRoundTrip | src/util.js:17-28 | an entity with no empty strings, written as JSON, is accepted and read back unchanged |
| Util.EntityValueBack | src/util.js:17-28 | an accepted entity document is exactly the JSON of the entity it yields: nothing is added or lost |
| Util.ParseConfigRoundTrip | src/util.js:10-31 | a well-formed configuration, written as JSON, is accepted and read back unchanged |
| Util.ParseConfigKeepsDocument | src/util.js:10-31 | the validated value is the document with `syncConfig` and `branch` added when absent |
| Util.ParsedIsWellFormed | src/util.js:10-31 | an accepted configuration has no empty string anywhere, so no entity path or pattern is empty |
| Util.ParseConfigDefaults | src/util.js:13-14 | `syncConfig` is true and `branch` is "master" exactly when the document leaves them out; otherwise they are the document's values |
| Util.EntitiesRequired | src/util.js:15-30 | a document without `entities` is refused |
| Util.GetProjectPath | src/util.js:79-86 | succeeds iff the project directory exists, giving `<root>/<name>`; otherwise it fails with "Project path is invalid!" |
| Util.GetProjectConfig | src/util.js:88-114 | each error happens iff its check is the first to fail, in the order: project directory, config file, JSON, schema; success returns the schema's value |
| Util.AvailableProjects | src/util.js:116-122 | the result holds exactly the listing entries that are directories |
| Util.AvailableProjectsOrder | src/util.js:119-121 | the listing is filtered entry by entry, so the available projects keep the listing order |
| Git.Concat | src/git.js:145 | the concatenation of the lists is empty iff every list is empty |
| Git.ChangeCount | src/git.js:145 | the length of the concatenated status lists is the sum of the four lengths, and it is 0 iff all four are empty |
| Git.Entries | src/git.js:145 | `Object.values(diff)`: the created, deleted, modified and renamed lists in that order; no contract of its own, `Concat` and `ChangeCount` state what counting them gives |
| Git.Repo.constructor | src/git.js:59 | a handle starts with an empty operation log |
| Git.Repo.Fetch | src/git.js:63 | records a fetch, which succeeds iff the remote is reachable |
| Git.Repo.ResetHard | src/git.js:64 | records a hard reset |
| Git.Repo.Rm | src/git.js:136 | records the removal of the given paths |
| Git.Repo.Add | src/git.js:140 | records the staging of the given paths |
| Git.Repo.Commit | src/git.js:99 | records a commit with the given message |
| Git.Repo.Push | src/git.js:100 | records the push, which succeeds iff the remote is reachable |
| Git.RepositoryPath | src/git.js:9-12 | the result is Ok iff the project directory exists, and then it is `<root>/<name>/.vsc` |
| Git.DirOfRepositoryPath | src/git.js:45-47 | the `dir` of a project is the parent of its `.vsc`: the project directory, for any project name |
| Git.KnownFiles | src/git.js:114-128 | the known files are non-empty, newline-free lines; there are none when `ls-tree` fails |
| Git.KnownFilesOfListing | src/git.js:117-128 | an `ls-tree` listing of names reads back as exactly those names |
| Git.Candidates | src/git.js:130-132 | the candidates are exactly the known files not in `files`, resolved under `vsc` |
| Git.Missing | src/git.js:133 | the first missing candidate does not exist and every candidate before it exists, so it is the one `lstat` throws on; when none is missing, every candidate exists |
| Git.NonDirectories | src/git.js:133 | keeps exactly the candidates that are not directories |
| Git.RemovedFiles | src/git.js:130-133 | the paths `isUpToDate` removes: the untracked known files, resolved under `vsc`, failing at the first missing one; no contract of its own, its meaning is stated by `RemovedFilesMeaning`, `RemovedFilesOrder` and `TrackedNeverRemoved` |
| Git.RemovedFilesMeaning | src/git.js:130-133 | the removal fails iff some untracked known file is missing; otherwise it holds exactly the untracked known files, resolved under `vsc`, that are not directories |
| Git.RemovedFilesOrder | src/git.js:130-133 | the removed list keeps the `ls-tree` order |
| Git.TrackedNeverRemoved | src/git.js:130-131 | a file the run tracked is never removed, unless another known file, not tracked, resolves to the same path |
| Git.StagingOps | src/git.js:135-141 | `rm` is requested iff the removed list is non-empty, and before `add`; `add` is requested iff `files` is non-empty; nothing else is requested, so there is one operation per non-empty list |
| Git.TrimFirstNewline | src/git.js:156 | a string without a newline is unchanged; otherwise exactly its first newline is removed |
| Git.ReplaceFirstNewline | src/git.js:156 | `replace('\n', '')` removes exactly the first newline, if any |
| Git.ProjectFactory.constructor | src/git.js:32-35 | a new project has its name, an empty `files` list, and is not open |
| Git.ProjectFactory.Dir | src/git.js:45-47 | `dir` is the parent of `vsc`; no contract of its own, `DirOfRepositoryPath` states that it is the project directory |
| Git.ProjectFactory.Open | src/git.js:49-60 | the checks run in order: the project directory must exist, then `.vsc`, then the configuration must load; each failure leaves the fields it did not reach, and success opens the project with `dir` its directory |
| Git.ProjectFactory.Reset | src/git.js:62-65 | fetches, and hard-resets only when the fetch succeeds |
| Git.ProjectFactory.Add | src/git.js:67-69 | appends the file to `files`, keeping order and duplicates, and changes nothing else |
| Git.ProjectFactory.Diff | src/git.js:71-79 | returns the repository's four status lists |
| Git.ProjectFactory.Update | src/git.js:81-111 | commits with "Updated by Gbck" under auto-commit and otherwise with the answer, then force-pushes to `origin master`; it fails iff the push cannot reach the remote |
| Git.ProjectFactory.Stage | src/git.js:135-141 | appends to the log exactly the staging operations for the removed list and `files` |
| Git.ProjectFactory.Removal | src/git.js:114-133 | the removal `isUpToDate` computes from the `ls-tree` listing and `files`; no contract of its own, it is `RemovedFiles` of the repository state |
| Git.ProjectFactory.IsUpToDate | src/git.js:113-146 | fails with the first missing path and stages nothing; otherwise stages as `StagingOps` says and returns true iff the four status lists are empty |
| Git.ProjectFactory.GetLastChange | src/git.js:148-157 | the relative date with its first newline removed |
| SyncProject.SyncItems | src/commands/syncProject.js:34-44 | the sync list is the entities in order, then the readme, then the config entity, which comes last and only when `syncConfig` is set |
| SyncProject.BuildSyncList | src/commands/syncProject.js:34-44 | building the list by appending gives the sync list |
| SyncProject.MergedOptions | src/commands/syncProject.js:76-89 | strings and objects without `options` get the defaults; a supplied `options` replaces them wholesale, and symlinks are followed iff it sets `symlinks` to true |
| SyncProject.ResolveEntity | src/commands/syncProject.js:46-98 | an array of length other than 2 fails naming its index, and a length-2 array is a command; undefined fails as an unknown type; a string or object is a copy task with the merged options, whose source is the entity's string or `i`, untildified, kept as it is when absolute and resolved against `dir` otherwise (so an absolute source is kept unchanged), and whose name is `o` when given, else the source's basename |
| SyncProject.RelativeStringEntity | src/commands/syncProject.js:94-98 | a relative string entity is copied from under `dir`, under its own basename, with the defaults |
| SyncProject.HomeStringEntity | src/commands/syncProject.js:94 | an entity `~/x` is copied from under the home directory |
| SyncProject.Resolutions | src/commands/syncProject.js:46 | each item is resolved with its own index |
| SyncProject.Collect | src/commands/syncProject.js:46-144 | the values of the results when all are Ok, else the first error; no contract of its own, its meaning is stated by `CollectMeaning` and `CollectFirstError` |
| SyncProject.CollectMeaning | src/commands/syncProject.js:46-144 | `Collect` succeeds iff every result is Ok, and then holds the values in order |
| SyncProject.CollectFirstError | src/commands/syncProject.js:46-144 | the error of `Collect` is that of the first failing result |
| SyncProject.Plans | src/commands/syncProject.js:46-144 | the tasks of the sync list, the first unresolvable item failing them all; no contract of its own, its meaning is stated by `PlansMeaning` and `PlansFirstError` |
| SyncProject.PlansMeaning | src/commands/syncProject.js:46-144 | tasks exist iff every item resolves, and then task k is the task of item k |
| SyncProject.PlansFirstError | src/commands/syncProject.js:46-144 | when the tasks fail, the error is that of the first item that does not resolve |
| SyncProject.MissingReadmeFails | src/commands/syncProject.js:86-92 | a configuration without a readme whose entities all resolve fails with "Unknown type of entity" |
| SyncProject.ExcludeHit | src/commands/syncProject.js:123-131 | the popping loop reports a hit iff `Excluded` holds: a matching non-empty pattern is met before any empty pattern |
| SyncProject.Excluded | src/commands/syncProject.js:123-131 | the exclude loop's verdict: some non-empty pattern matches the basename and no empty pattern comes after it; no contract of its own, `ExcludeHit` proves the loop equals it, and `ExcludedWithoutEmpty`, `EmptyPatternStops`, `ExcludedByTail` and `ExcludedOnlyByTail` state its meaning |
| SyncProject.ExcludedWithoutEmpty | src/commands/syncProject.js:123-131 | with no empty pattern, which the schema guarantees, a file is excluded iff its basename matches some pattern |
| SyncProject.ExcludedByTail | src/commands/syncProject.js:126 | an exclusion by the patterns after an empty one is an exclusion by the whole list |
| SyncProject.ExcludedOnlyByTail | src/commands/syncProject.js:126 | an exclusion by the whole list comes from a pattern after its last empty one |
| SyncProject.EmptyPatternStops | src/commands/syncProject.js:126 | an empty pattern hides every pattern before it |
| SyncProject.ShouldTrack | src/commands/syncProject.js:107-131 | the checks, in the source's order with their early returns, keep a file iff `Tracked` holds |
| SyncProject.Tracked | src/commands/syncProject.js:107-131 | whether a walked file is recorded: not a symlink unless symlinks are followed, included when there is an include list, not excluded when there is an exclude list; no contract of its own, `ShouldTrack` proves the early-return checks equal it, and `DirRecordsMembers`, `OmittedSymlinksSkipped` and `TrackDirectory` use it |
| SyncProject.RecordOfStep | src/commands/syncProject.js:107-133 | one more walked file adds at most its own record, and exactly when it is accepted |
| SyncProject.OmittedSymlinksSkipped | src/commands/syncProject.js:108-113 | an entity whose `options` omit `symlinks` never records a symlink |
| SyncProject.TrackedPath | src/commands/syncProject.js:133 | the recorded path of walked file `rel` is `name/rel` (the corrected rewrite, see Findings) |
| SyncProject.TrackedPathAsWritten | src/commands/syncProject.js:133 | the rewrite as written, `replace` of the source in the joined path by the name; no contract of its own, `TrackedPathAgrees`, `TrackedPathTrailingSlash` and `TrackedPathDollarName` compare it with the corrected rewrite |
| SyncProject.TrackedPathAgrees | src/commands/syncProject.js:133 | for a source without a trailing slash and a name without `$`, the rewrite as written and the corrected one agree |
| SyncProject.TrackedPathTrailingSlash | src/commands/syncProject.js:133 | for source `"/d/"`, walked file `v` and name `d`, the rewrite as written records `dv` where `d/v` is meant |
| SyncProject.TrackedPathDollarName | src/commands/syncProject.js:133 | for source `/d`, walked file `v` and name `x$&`, the rewrite as written records `x/d/v` where `x$&/v` is meant |
| SyncProject.DirRecordsStep | src/commands/syncProject.js:106-134 | walking one more file appends its record, under the corrected rewrite, iff the file is tracked |
| SyncProject.DirRecordsMembers | src/commands/syncProject.js:106-134 | a directory task records exactly `name/rel` for each walked `rel` that is tracked (the corrected rewrite) |
| SyncProject.DirRecordsBound | src/commands/syncProject.js:106-134 | a directory task records at most one path per walked file |
| SyncProject.DirRecords | src/commands/syncProject.js:106-134 | the records of a directory task in walk order; no contract of its own, its meaning is stated by `DirRecordsStep`, `DirRecordsMembers` and `DirRecordsBound` |
| SyncProject.TaskRecords | src/commands/syncProject.js:56-141 | a command succeeds iff it runs with empty stderr and its target can be written, and then records exactly its name; non-empty stderr fails with that command's error; a copy succeeds iff its source exists and its target can be written; a failed copy names the name and index; a non-directory records exactly its name |
| SyncProject.DirectoryTaskRecords | src/commands/syncProject.js:104-134 | a successful copy of a directory records `DirRecords` of its walk, with the corrected rewrite |
| SyncProject.RunAllFailure | src/commands/syncProject.js:100-146 | the run fails iff some task fails, and then with the error of a failing task |
| SyncProject.RunAllRecords | src/commands/syncProject.js:100-146 | a successful run records exactly what the tasks record |
| SyncProject.RunAllStep | src/commands/syncProject.js:100-146 | the task at `i` either ends the run with its error or adds its records to those of the earlier tasks |
| SyncProject.RunAll | src/commands/syncProject.js:100-146 | the tasks run in order until the first failure; no contract of its own, its meaning is stated by `RunAllFailure`, `RunAllRecords` and `RunAllStep` |
| SyncProject.SelectProjects | src/commands/syncProject.js:252-268 | nothing runs iff nothing was requested; the projects that run are the requested ones that are available; a warning is given iff some requested project was dropped, with the one-project message iff exactly one was requested |
| SyncProject.SelectionKeepsOrder | src/commands/syncProject.js:253 | the projects that run keep the request order |
| SyncProject.CommitScanAsWritten | src/commands/syncProject.js:203-247 | the loop as written: nothing when the flag is set, else `Scan`; no contract of its own, its behaviour is stated by `LastCleanCheckHidesChanges` |
| SyncProject.Scan | src/commands/syncProject.js:226-247 | the loop over the projects as written; no contract of its own, its behaviour is stated by `ScanPrefix`, `ScanAllDirty` and `CheckedScanNeverStops` |
| SyncProject.ScanPrefix | src/commands/syncProject.js:226-247 | the loop as written updates a prefix of the projects, each with changes; it completes iff it updates them all; otherwise it stops at a project without changes (the `return`) or crashes at one with no container entry |
| SyncProject.CommitTargetsStep | src/commands/syncProject.js:226-247 | one more project adds itself to the corrected targets iff it was checked and has changes |
| SyncProject.CommitTargetsMembers | src/commands/syncProject.js:226-247 | the corrected loop updates exactly the requested projects that were checked and have changes |
| SyncProject.CommitTargetsConcat | src/commands/syncProject.js:226-247 | the corrected loop handles the projects one by one, in request order |
| SyncProject.CommitTargets | src/commands/syncProject.js:226-247 | the corrected loop's updates; no contract of its own, its meaning is stated by `CommitTargetsStep`, `CommitTargetsMembers` and `CommitTargetsConcat` |
| SyncProject.ScanAllDirty | src/commands/syncProject.js:226-247 | when every project was checked and has changes, the loop as written updates all of them and completes |
| SyncProject.TargetsAllDirty | src/commands/syncProject.js:226-247 | when every project was checked and has changes, the corrected loop updates all of them |
| SyncProject.CleanProjectStopsLoop | src/commands/syncProject.js:232-234 | when `diff` reports `a` clean at loop time and `b` changed, the loop as written stops at `a` and updates nothing; the corrected loop updates `b` |
| SyncProject.UncheckedProjectCrashesLoop | src/commands/syncProject.js:230 | with projects `a` (never checked) and `b` (changed), the loop as written crashes at `a`; the corrected loop updates `b` |
| SyncProject.TrackDirectory | src/commands/syncProject.js:106-134 | the walk callback appends to `files` exactly the records of `DirRecords`, in walk order, with the corrected rewrite |
| SyncProject.RunTask | src/commands/syncProject.js:56-142 | a task appends exactly what `TaskRecords` gives (the corrected rewrite for directories), or fails with its error and appends nothing |
| SyncProject.RunTasks | src/commands/syncProject.js:146 | the tasks, run in order until one fails, append exactly the records of `RunAll` (the corrected rewrite for directories) and fail iff it fails |
| SyncProject.CopyFiles | src/commands/syncProject.js:29-147 | an unresolvable item fails before anything is recorded; otherwise `files` grows by what the tasks record until the first failure, whose error is returned; directories are recorded with the corrected rewrite |
| SyncProject.RunContext.constructor | src/commands/syncProject.js:193-196 | the shared context starts with an empty container and `upToDate` set, and is valid: every entry is open, on a repository of its own |
| SyncProject.RunContext.Statuses | src/commands/syncProject.js:205 | there is one status per container entry, and it is the status of that project's repository |
| SyncProject.RecordVerdict | src/commands/syncProject.js:178-185 | an up-to-date project sets `upToDate` and leaves the container alone; any other clears it and enters the container under its name; the context stays valid; when the verdict is the project's own, the new statuses and flag are `CheckStep` of the old ones |
| SyncProject.CheckProject | src/commands/syncProject.js:174-187 | a failed reconciliation changes neither `upToDate` nor the container; otherwise the project is staged, and `upToDate` and the container are set by whether its status is empty; the context stays valid |
| SyncProject.MarkUpToDate | src/commands/syncProject.js:180 | sets the flag and keeps the container, its statuses and validity |
| SyncProject.Enter | src/commands/syncProject.js:183-184 | clears the flag and enters the project under its name, keeping the context valid and replacing that name's status by the project's |
| SyncProject.EntryKeepsOwnRepos | src/commands/syncProject.js:184 | entering an open project on a repository no other entry uses keeps every repository its own, and replaces its name's status |
| SyncProject.StatusesOf | src/commands/syncProject.js:205 | one status per entry, the status of that project's repository |
| SyncProject.AfterChecks | src/commands/syncProject.js:193-196 | the shared context after the checks, folded in completion order from the one `runTask` hands in; no contract of its own, its meaning is stated by `AfterChecksMeaning` |
| SyncProject.CheckStep | src/commands/syncProject.js:178-185 | what one passing check does to the shared context; no contract of its own, `RecordVerdict` is stated against it |
| SyncProject.RecordedChecks | src/commands/syncProject.js:178-196 | a run of RecordVerdict calls from the initial context, each doing `CheckStep`, ends in `AfterChecks` of the checks in completion order |
| SyncProject.FoundChangesStep | src/commands/syncProject.js:183-184 | one more check adds at most its own project to those found with changes |
| SyncProject.AfterChecksMeaning | src/commands/syncProject.js:178-185 | after checks in any completion order, `upToDate` is the verdict of the last check alone (or the initial true), and the container holds exactly the projects some check found with changes, each with changes |
| SyncProject.CheckedScanNeverStops | src/commands/syncProject.js:230-234 | on a container the checks built, the loop as written never reaches its `return` |
| SyncProject.LastCleanCheckHidesChanges | src/commands/syncProject.js:203 | when `b` (changed) finishes its check before `a` (clean), the flag ends up set with `b` in the container: the loop as written commits nothing, the corrected loop updates `b` |
| SyncProject.CleanChecksCommitNothing | src/commands/syncProject.js:203-247 | the corrected loop updates nothing iff no check found a requested project with changes, whatever order the checks finished in |
| SyncProject.UpdateLogSnoc | src/commands/syncProject.js:242-246 | updating one more project adds a commit and a push to that project's repository only |
| SyncProject.LogStep | src/commands/syncProject.js:242-246 | one loop turn extends each repository's expected log by its own update, if any |
| SyncProject.UpdateIfDirty | src/commands/syncProject.js:230-246 | a turn updates the project iff it has an entry and changes, and adds a commit and a push to that repository only |
| SyncProject.CommitStep | src/commands/syncProject.js:226-247 | one turn keeps the context valid and the statuses unchanged; the updated list grows as `CommitTargets` says, and so does every log |
| SyncProject.CommitLoop | src/commands/syncProject.js:200-248 | the corrected loop updates exactly `CommitTargets` of the statuses it started from, whatever the shared flag says; each repository's log grows by one commit and push per update of its project |

## Left out

- Copying itself (`fs.copy`, `fs.outputFile`) is left out. Only what a task records, and whether it fails, is modelled. Writability is the `canWrite` parameter.
- Concurrency is left out.
  - Listr runs the entity tasks, and several projects, concurrently. The model runs the tasks in list order and lets the first failure end the run.
  - `ctx.upToDate` and the container are written by every project's check in completion order. `AfterChecks` takes that order as its input; the model does not derive which orders can happen.
  - Between the checks and the loop, a repository's status is fixed. A working tree that changes after its check, for example through another run on the same project, is not modelled.
  - The directory walk's callback is not awaited. The model completes the walk before the check.
  - The walk cannot fail in the model. In the code, a failing `recursive` leaves `files` undefined, so `files.forEach` throws, and `fs.lstatSync(f)` throws on a file that vanished. Both throws happen in the un-awaited callback, outside the task's try/catch.
- The `syncProject` Listr sequence is glue and is not modelled as one member. Its steps are `Open`, `Reset`, `CopyFiles` and `CheckProject`.
  - A failure in any task of the run leaves `ctx` undefined, so nothing is committed.
  - `task.skip` for a project without entities does not stop `copyFiles`.
  - The check step is disabled for such a project. It then has no container entry.
- `runTask`'s `.catch(printError).then(...)` chain is left out, because it is a place for output. The loop starts only from a context.
- Git semantics are left out: what fetch, reset, rm, add, commit and push do to the tree and the remote. A `Repo` answers from fixed state and only records the operations asked of it.
  - Of the git calls, only fetch (`Fetch`, used by `Reset`) and push can fail, both by `reachable`. A `commit`, `rm` or `add` that throws is not modelled; for example, `git add` of a path that matches nothing, such as the `dv` of Findings row 1, fails in git but not in the model.
- Library internals are parameters:
  - minimatch (`matches`);
  - `urlRegex` (`urlOk`);
  - JSON parsing (`parse`);
  - `recursive-readdir` (`walk`, listing paths relative to the source);
  - `child_process.exec` (`exec`).
- `path.resolve` and `path.join` are modelled for normalised inputs only. `.` and `..` segments are not normalised.
- Resolve: the base is taken as normalised and not the root `/`; `path.resolve('/', p)` gives `/p` where the model gives `//p`.
- `untildify` is modelled only for the leading `~`.
- joi's conversion of non-canonical values is left out, for example a string `"true"` given for a boolean. The schema is modelled on JSON values as they are.
- Basename: its own contract gives only the shape of the result. The value, the last segment, is stated by `BasenameIsLastSegment`.
- The copy pipeline uses the corrected rewrite of Findings rows 1 and 5: it keeps a trailing slash from mattering, and it takes the name literally, so a name such as `x$&` records `x$&/v` where the code records `x/d/v`. This covers `DirRecords`, `TaskRecords`, `TrackDirectory`, `RunTask`, `RunTasks` and `CopyFiles`. The rewrite as written is `TrackedPathAsWritten`, and it is compared with the corrected one only path by path.
- Util.AvailableProjects: requires every listing entry to exist in the file system, as `readdir` guarantees. A throwing `lstatSync` is not modelled.
- Printing, prompts, spinners, colours and the log file are left out. This covers `printChangesInFiles`, `printError`, `printSuccess`, `log`, `inquirer`, `ora`, `chalk` and `boxen`. The prompted commit messages are the `answers` parameter.
- When exactly one project runs, the array `[p]` is passed as the project name. Its string coercion is `p`, so this is modelled as passing `p`.
- Other files are not part of this model, because they are argument dispatch, prompts and printing: `gitCloneProject`, `getLastChangeRow`, `getGbckPath`'s directory creation, `src/commands/init.js`, `src/commands/list.js`, `src/cli.js`, `src/commands/help.js` and `src/commands/syncAll.js`.

## Findings

| source | as written | input that shows it | evidently intended | confidence | as-written member | corrected member |
|---|---|---|---|---|---|---|
| src/commands/syncProject.js:133 | `f.replace(file, name)` replaces the source path as configured, but the walked paths come from `path.join`, which drops a trailing slash | an absolute source with a trailing slash, e.g. `/d/` (or `~/d/`, which becomes `<home>/d/`), walked file `/d/v`, name `d`: records `dv` | record `d/v`, the copied file's path in `.vsc` | medium, not executed | SyncProject.TrackedPathTrailingSlash | SyncProject.TrackedPath |
| src/commands/syncProject.js:232-234 | `return` leaves the whole loop at the first project without changes | `a` listed before `b`, with `a`'s working tree clean by the time the loop calls `diff` again and `b` changed: `b` is never committed. The checks alone never enter a clean project (`CheckedScanNeverStops`), so an ordinary run does not reach this | skip that project, as the comment above the loop says | low, not executed | SyncProject.CleanProjectStopsLoop | SyncProject.CommitLoop |
| src/commands/syncProject.js:230 | `projectContainer[p].diff()` is called for every requested project, but only checked projects with changes are in the container | projects `a` and `b` (changed): `undefined.diff()` throws at `a` when `a` has no entities, whatever the order of the checks; it throws too when `a` is up to date and `b`'s check finishes last (in the other order the flag ends set, see the next row) | skip projects that have no entry | medium, not executed | SyncProject.UncheckedProjectCrashesLoop | SyncProject.CommitTargetsMembers |
| src/commands/syncProject.js:203 | `if (ctx.upToDate) return;` reads a flag that every check overwrites as it finishes, so it holds only the last check's verdict | `b` (changed) finishes its check before `a` (clean): the flag is true and `b` is never committed | commit nothing only when no project has changes | medium, not executed | SyncProject.LastCleanCheckHidesChanges | SyncProject.CleanChecksCommitNothing |
| src/commands/syncProject.js:133 | `replace` reads its replacement string as a pattern, so `$&`, `$$`, `` $` `` and `$'` in a name are expanded | source `/d`, walked file `/d/v`, name `x$&`: records `x/d/v` | record `x$&/v`, the name taken literally | low, not executed | SyncProject.TrackedPathDollarName | SyncProject.TrackedPath |
