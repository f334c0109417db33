# A verified model of the reconciliation engine of a dotfile provisioning tool

The tool reads a configuration that lists directories, empty files, symbolic links,
copies and shell commands, and brings the local filesystem in line with it. An
`apply` run can also be a dry run, which only previews the changes. This project
models two parts of it in Dafny:

- **Placeholder and path templating** (`src/context.rs`). `Context` holds the user
  name and the home directory. `Context::apply` replaces every `$USER` and then every
  `$HOME`. `Context::apply_path` rewrites a path component by component. A first
  component that is exactly `~` becomes the home directory. The rewritten strings are
  then collected into a `PathBuf`. `Context::from_env` reads `USER` and `HOME` from the
  environment.
- **The reconciliation engine** (`src/manager.rs`). `Manager::apply` runs five loops:
  directories, empty files, links, copies and commands. Each item is handed to a
  helper: `create_directory`, `create_file` (which uses `create_empty_file`),
  `create_symlink`, `copy` or `execute_command`. Those helpers use `remove_all` and
  `ask_user`. The first error ends the run.

## Layout

| file | module | what it holds |
|---|---|---|
| `errors.dfy` | `Errors` | the `Error` enum of `src/error.rs`, the OS error kinds it wraps, `Result` and `Option` |
| `strings.dfy` | `Strings` | `str::replace`, defined by a left-to-right scan and proved equal to split-and-join; `str::trim` and lower-casing |
| `paths.dfy` | `Paths` | a path as its components; `PathBuf::push`, where an absolute string replaces the path; `collect`; `Path::parent` |
| `context.dfy` | `Placeholders` | `Context`, `Apply`, `ApplyPath`, `FromEnv` and their properties |
| `filesystem.dfy` | `FileSystem` | the filesystem as `map<Path, Node>`, and every system call the helpers make as a function from one map to the next |
| `steps.dfy` | `Steps` | each helper as a function from the state before the call to the state after it and its result, with the helpers' properties |
| `helpers.dfy` | `Helpers` | class `World`: the filesystem, the unread standard-input lines and the log of spawned commands; one method per helper, proved to match `Steps` |
| `manager.dfy` | `Reconcile` | `Config`, `Manager`, the five loops of `apply` as methods, `Run` (their specification) and the properties of whole runs |

The state a helper acts on is `Steps.State(fs, input, log)`:

- `fs` is a finite map from paths to `Dir`, `File(contents)` or `Link(target)`.
- `input` holds the lines of standard input that have not been read yet.
- `log` holds every `(program, args)` spawned so far.

`Helpers.World` is the mutable version of that state. Every method of `World` ends in
the state, and with the result, that the matching `Steps` function gives.
`Reconcile.Manager.Apply` ends where `Run` says. `Run` is the five loops as a fold
that stops at the first error. Every property below is proved about those functions.

The `links` and `copys` fields are hash maps, so their iteration order is not fixed.
`Apply` therefore takes `linkOrder` and `copyOrder`: any listing of each map's keys,
each key once. No property depends on that order.

The command line maps `Apply` to `apply(false, replace, ..)` and `DryApply` to
`apply(true, replace, ..)` (src/command.rs:96-103). Only `Version` and `Completions`
run without a `Context`.

## Model

| member | source | states |
|---|---|---|
| `Placeholders.Context.Apply` | src/context.rs:25-27 | `apply`: every `$USER` replaced by the user name, then every `$HOME` in the result replaced by the home directory. Its meaning is stated by `ApplyReplacesEveryToken` and the lemmas after it |
| `Placeholders.Context.Rewritten` | src/context.rs:33-39 | the strings the components map to, one per component: a first component that is exactly `~` becomes `apply` of the home directory, every other component `apply` of itself |
| `Placeholders.Context.ApplyPath` | src/context.rs:29-41 | `apply_path`: the rewritten components collected into a path. Stated by `ApplyPathKeepsNames`, `ApplyPathRestartsAtAbsolute` and `ApplyPathWellFormed` |
| `Placeholders.FromEnv` | src/context.rs:12-22 | `USER` is looked up first: without it the result is `EnvUserNotFound` whatever `HOME` is. With `USER` but no `HOME` it is `EnvHomeNotFound`. It succeeds exactly when both are set, and then holds both values unchanged |
| `Placeholders.ApplyReplacesEveryToken` | src/context.rs:25-27 | `apply` is two passes. The pieces between the `$USER` tokens are joined with the user name. Then the pieces of that result between the `$HOME` tokens are joined with the home directory. No piece contains its token, so every non-overlapping occurrence is substituted |
| `Placeholders.ApplyLeavesPlainText` | src/context.rs:26 | a string with neither `$USER` nor `$HOME` comes back unchanged |
| `Placeholders.UserNameIsExpandedAgain` | src/context.rs:26 | `$USER` is replaced first, so a `$HOME` inside the user name is expanded as well |
| `Placeholders.HomeDirIsNotExpandedAgain` | src/context.rs:26 | `$HOME` is replaced last, so `$HOME` becomes the home directory verbatim, and a `$USER` inside it survives |
| `Placeholders.ApplyExample` | src/context.rs:25-27 | with user `alice` and home `/home/alice`, `$HOME/$USER/.config` becomes `/home/alice/alice/.config` |
| `Placeholders.TildeOnlyAsWholeFirstComponent` | src/context.rs:29-40 | component `i` is rewritten to `apply` of itself, in order. The exception is a first component that is exactly `~`, which becomes `apply(home_dir)` |
| `Placeholders.TildeLiteralExample` | src/context.rs:34 | `~foo`, and a `~` that is not the first component, stay literal |
| `Placeholders.ApplyPathKeepsNames` | src/context.rs:29-40 | when every rewritten component is a plain name, the collected path is exactly those components in order |
| `Placeholders.ApplyPathRestartsAtAbsolute` | src/context.rs:29-40 | a component that expands to an absolute path, such as `$HOME`, discards every component before it |
| `Placeholders.ApplyPathWellFormed` | src/context.rs:29-40 | whatever the input, `apply_path` yields a well-formed path: an optional root, then non-empty names without a slash |
| `Placeholders.ApplyPathTildeName` | src/context.rs:29-40 | `~/<name>` becomes the components of an absolute, token-free home directory followed by the name |
| `Placeholders.ApplyPathExample` | src/context.rs:29-40 | with the same context, `~/bin` becomes `/home/alice/bin` |
| `Strings.Replace` | src/context.rs:26 | `str::replace` with a non-empty pattern, as a left-to-right scan that substitutes every non-overlapping occurrence. Proved equal to split-and-join by `ReplaceIsJoinOfSplit` |
| `Strings.Trim` | src/manager.rs:84 | `str::trim`: leading and then trailing whitespace removed. Stated by `TrimSpec` |
| `Strings.ReplaceIsJoinOfSplit` | src/context.rs:26 | the scan that models `str::replace` equals joining the pieces between the occurrences with the replacement |
| `Strings.JoinSplit` | src/context.rs:26 | splitting at a pattern and joining with that pattern gives the string back |
| `Strings.SplitPiecesMatchFree` | src/context.rs:26 | no piece of a split contains the pattern |
| `Strings.ReplaceNoMatch` | src/context.rs:26 | a string without the pattern is left unchanged by `replace` |
| `Strings.TrimSpec` | src/manager.rs:84 | `trim` keeps a slice of the line with only whitespace around it, and the slice neither starts nor ends with whitespace |
| `Paths.Push` | src/context.rs:40 | `PathBuf::push` of one string: an absolute string replaces the path, any other appends its components |
| `Paths.Collect` | src/context.rs:40 | `collect` into a `PathBuf`: every string pushed in order onto the empty path. Stated by `CollectRestartsAtAbsolute` and `CollectFromNames` |
| `Paths.CollectRestartsAtAbsolute` | src/context.rs:40 | collecting into a `PathBuf` pushes each string, and an absolute string discards everything before it |
| `Paths.CollectFromNames` | src/context.rs:40 | plain names pushed in order are exactly the components of the result |
| `Paths.Parent` | src/manager.rs:214 | `parent` exists exactly for paths other than the empty path and the root, and it is the path without its last component |
| `FileSystem.Canonicalize` | src/manager.rs:105 | `canonicalize`: the entry a chain of symbolic links ends at. It fails with `NotFound` when the chain leads nowhere, or with `TooManyLinks` after `MaxSymlinkHops` links. The contract of `Follow` states this |
| `FileSystem.CreateDirAll` | src/manager.rs:187 | `fs::create_dir_all`: `mkdir`, creating the parent first when it is missing; a failure is forgiven when the path is a directory by then. Stated by `CreateDirAllSpec` |
| `FileSystem.OpenWrite` | src/manager.rs:199-202 | opening for writing with creation, through a link to a file. Without data nothing is truncated; with data (`fs::copy`) the file is overwritten. A directory, or a dangling link, is an error. Stated by `Steps.CreateEmptyFileKeepsContents` and `Steps.CopyFileWritesContents` |
| `FileSystem.Symlink` | src/manager.rs:169 | `symlink`: a new link where nothing is, under a directory. Anything already there gives `AlreadyExists`. Stated by `Steps.SymlinkMakesLink` and `Steps.SymlinkOverOccupiedPathFails` |
| `FileSystem.RemoveFile` | src/manager.rs:234 | `remove_file`: unlinks a file or a link itself, never a directory. Stated by `Steps.RemoveAllRemovesOnlyTarget` |
| `FileSystem.RemoveDirAll` | src/manager.rs:236 | `remove_dir_all`: a directory with everything below it, or a link itself. Stated by `Steps.RemoveAllRemovesOnlyTarget` |
| `FileSystem.CopyFile` | src/manager.rs:123 | `fs::copy`: the contents of the file the source leads to, written into `dest`. Stated by `Steps.CopyFileWritesContents` and `Steps.CopyFileOverExisting` |
| `FileSystem.CopyTree` | src/manager.rs:127-134 | the directory copy: `dest` must be absent. It is created with its ancestors and receives the tree below the source. Stated by `CopyTreeSpec` |
| `FileSystem.CreateDirAllSpec` | src/manager.rs:187 | `create_dir_all` succeeds exactly when no ancestor, and not the path itself, is anything but a directory. It then adds the missing prefixes as directories and changes nothing else |
| `FileSystem.CreateDirAllMakesDirs` | src/manager.rs:187 | after a successful `create_dir_all` the path leads to a directory, every ancestor is one, and every entry is kept |
| `FileSystem.CopyTreeSpec` | src/manager.rs:127-134 | the directory copy into an absent `dest` succeeds exactly when `dest` can be created. `dest` then holds every entry below the source at the same relative place, and every earlier entry is unchanged. Each new entry is either a created ancestor of `dest` (a directory) or lies below `dest` |
| `FileSystem.CopyTreeAddsOnlyGraft` | src/manager.rs:127-134 | after the directory copy, every entry below `dest` is the entry at the matching place below the source; nothing else appears there |
| `Steps.Answer` | src/manager.rs:84-91 | one line, trimmed and lowercased: `yes`/`y` is true, `no`/`n` is false, anything else is no answer |
| `Steps.Ask` | src/manager.rs:78-96 | `ask_user`: it reads lines until one is an answer. It only ever consumes a prefix of the input, and its only failure is `StandardInput` |
| `Steps.Confirm` | src/manager.rs:109 | `replace` or else `ask_user(..)`: with `replace` the answer is yes and nothing is read. Otherwise it is `ask_user`. It only ever consumes a prefix of the input |
| `Steps.RemoveAll` | src/manager.rs:227-240 | `remove_all`: reads no input and spawns nothing. Its effect is stated by `RemoveAllRemovesOnlyTarget` |
| `Steps.CreateDirectory` | src/manager.rs:172-191 | `create_directory`: reads no input and spawns nothing. Its effect is stated by `CreateDirectoryMakesDirs` |
| `Steps.CreateEmptyFile` | src/manager.rs:193-205 | `create_empty_file`: reads no input and spawns nothing. Its effect is stated by `CreateEmptyFileKeepsContents` |
| `Steps.CreateFile` | src/manager.rs:207-225 | `create_file`: spawns nothing. It reads either nothing or exactly the lines the prompt consumes |
| `Steps.CreateSymlink` | src/manager.rs:140-170 | `create_symlink`: spawns nothing. It reads either nothing or exactly the lines the prompt consumes |
| `Steps.Copy` | src/manager.rs:98-138 | `copy`: spawns nothing. It reads either nothing or exactly the lines the prompt consumes |
| `Steps.Transfer` | src/manager.rs:122-135 | the copy proper, `fs::copy` for a file and otherwise `create_dir_all` of the source and the directory copy: reads no input and spawns nothing |
| `Steps.ExecuteCommand` | src/manager.rs:242-255 | `execute_command`: never fails and leaves the filesystem and the input untouched. A dry run changes nothing at all; otherwise exactly the invocation `(program, args)` is appended to the log |
| `Steps.AskFailsWithoutAnswer` | src/manager.rs:83-95 | `ask_user` fails exactly when no line is an answer. It has then read every line, and the error is `StandardInput` |
| `Steps.AskFindsFirstAnswer` | src/manager.rs:83-92 | when line `i` is the first line that, trimmed and lowercased, is `yes`/`y` or `no`/`n`, `ask_user` answers with it (true or false) and leaves exactly the lines after it unread |
| `Steps.DryRunChangesNothing` | src/manager.rs:152-247 | the dry-run guards of `create_symlink` (152-154), `create_directory` (180-182), `create_empty_file` (195-197), `remove_all` (228-230) and `execute_command` (245-247). In a dry run the last four return `Ok` with the state untouched, and `create_symlink` reads no input and changes nothing |
| `Steps.DryCreateFileChangesNoFiles` | src/manager.rs:207-225 | a dry `create_file` changes neither the filesystem nor the command log |
| `Steps.DryCopyChangesNoFiles` | src/manager.rs:98-120 | a dry `copy` changes neither the filesystem nor the command log |
| `Steps.DryCreateFileStillAsks` | src/manager.rs:216-217 | a dry `create_file` on an existing path still prompts, and so consumes input. It fails exactly when the prompt does |
| `Steps.DryCopyStillAsks` | src/manager.rs:108-109 | a dry `copy` onto an existing `dest` still prompts, and so consumes input. It fails exactly when the prompt does |
| `Steps.CreateFileWithReplaceReadsNothing` | src/manager.rs:217 | with `replace`, `create_file` reads no input, because the `or` short-circuits |
| `Steps.CreateSymlinkWithReplaceReadsNothing` | src/manager.rs:162 | with `replace`, `create_symlink` reads no input |
| `Steps.CopyWithReplaceReadsNothing` | src/manager.rs:109 | with `replace`, `copy` reads no input |
| `Steps.RemoveAllRemovesOnlyTarget` | src/manager.rs:227-240 | `remove_all` succeeds exactly when something is at the path. It removes that entry alone for a file or a link, and the whole subtree for a directory. No other entry changes, and the tree stays valid |
| `Steps.CreateDirectoryMakesDirs` | src/manager.rs:172-191 | an existing directory is left alone. Otherwise the call succeeds exactly when nothing is in the way, and then the result is exactly the old tree with the missing prefixes of the path added as directories: the path and all its ancestors are directories, and every earlier entry is kept |
| `Steps.CreateEmptyFileKeepsContents` | src/manager.rs:193-205 | opening without truncation: on success the path leads to a file, and every entry, contents included, is unchanged. The only entry that can be added is an empty file at the path itself |
| `Steps.CreateFileDeclinedKeepsContents` | src/manager.rs:216-223 | when the user declines the deletion, `create_file` still creates the parent and opens the file. Every earlier entry keeps its contents, and on success the path leads to a file |
| `Steps.CreateFileMakesFile` | src/manager.rs:207-225 | a successful `create_file` outside a dry run leaves a file at the path. A valid tree stays valid, and nothing is spawned |
| `Steps.CreateFileReplacesWithEmptyFile` | src/manager.rs:216-223 | on an existing path whose deletion is confirmed, by `replace` or by a "yes", the old entry is removed first. On success the path holds a new, empty file, whatever was there, and only the answer was read |
| `Steps.CreateFileChangesOnlyItsPath` | src/manager.rs:207-225 | a successful `create_file` keeps every entry that is not at or below the path. Every entry that is new or different is the path itself, or a directory created on the way to its parent |
| `Steps.SymlinkSourceMissingChangesNothing` | src/manager.rs:147 | `create_symlink` fails with the canonicalization error, and changes nothing, when the source cannot be canonicalized |
| `Steps.SymlinkAlreadyInPlace` | src/manager.rs:156-159 | a `dest` that already links to the canonical source is kept: `Ok`, no change, no prompt |
| `Steps.SymlinkOverOccupiedPathFails` | src/manager.rs:156-169 | a `dest` held by something other than a link is not removed. The `symlink` call then meets it and fails with `AlreadyExists` |
| `Steps.SymlinkReplaceRemovesOldTarget` | src/manager.rs:161-169 | replacing a link that points elsewhere removes what the old link points at, not the link. The new `symlink` then meets the old link and fails |
| `Steps.SymlinkMakesLink` | src/manager.rs:140-170 | a successful `create_symlink` outside a dry run leaves `dest` linking to the canonical source. No other entry is added, removed or changed, and a valid tree stays valid |
| `Steps.RelinkAfterRemoval` | src/manager.rs:161-169 | after a confirmed replacement, the removal and the new link can both succeed only when the old link pointed at itself. The new link then takes its place and nothing else changes |
| `Steps.CopySourceMissingChangesNothing` | src/manager.rs:105 | `copy` fails with the canonicalization error, and changes nothing, when the source cannot be canonicalized |
| `Steps.CopyDeclinedIsSkipped` | src/manager.rs:108-114 | when the user declines to delete an existing `dest`, `copy` returns `Ok`. Only the answer is consumed, and the filesystem is unchanged |
| `Steps.CopyFileWritesContents` | src/manager.rs:122-123 | copying a file to a free `dest` writes the source's contents there and nothing else, and fails only when `dest` has no directory to go in |
| `Steps.CopyTreeCopiesEverything` | src/manager.rs:124-134 | copying a directory to a free `dest` succeeds exactly when `dest` can be created. `dest` then holds the whole tree below the source, and every earlier entry is kept. Every entry below `dest` comes from the matching place below the source, and every other new entry is a created ancestor directory of `dest` |
| `Steps.CopyFileOverExisting` | src/manager.rs:108-123 | copying a file onto an existing `dest` whose deletion is confirmed succeeds when the source is not at or below `dest`. `dest` then holds the source's contents, every entry not at or below `dest` is kept, and nothing else is added |
| `Steps.CopyTreeOverExisting` | src/manager.rs:108-134 | copying a directory onto an existing `dest` whose deletion is confirmed succeeds when neither lies below the other. `dest` then is a directory holding the source's tree at the same relative places, and every entry not at or below `dest` is kept. Nothing else appears outside `dest`, and every entry below `dest` comes from the matching place below the source, so `dest`'s old contents are gone |
| `Steps.CopiedOverRemoval` | src/manager.rs:108-134 | copying a tree into the place just cleared of `dest` succeeds. `dest` receives the source's tree, and every entry outside `dest` is what it was before the removal |
| `Steps.CopiedOverRemovalAddsNothingElse` | src/manager.rs:108-134 | after that copy nothing new appears outside `dest`, and everything below `dest` comes from the matching place below the source |
| `Steps.CopyKeepsValid` | src/manager.rs:98-138 | `copy` keeps a valid tree valid and spawns nothing |
| `Helpers.World.AskUser` | src/manager.rs:78-96 | the loop over input lines ends with the answer, and the unread lines, that `Ask` gives. The filesystem and the log are untouched |
| `Helpers.World.RemoveAll` | src/manager.rs:227-240 | ends in the state, and with the result, of `Steps.RemoveAll` |
| `Helpers.World.CreateDirectory` | src/manager.rs:172-191 | ends in the state, and with the result, of `Steps.CreateDirectory` |
| `Helpers.World.CreateEmptyFile` | src/manager.rs:193-205 | ends in the state, and with the result, of `Steps.CreateEmptyFile` |
| `Helpers.World.CreateFile` | src/manager.rs:207-225 | ends in the state, and with the result, of `Steps.CreateFile`. It requires the substituted path to have a parent, as `unwrap` does |
| `Helpers.World.CreateSymlink` | src/manager.rs:140-170 | ends in the state, and with the result, of `Steps.CreateSymlink` |
| `Helpers.World.Copy` | src/manager.rs:98-138 | ends in the state, and with the result, of `Steps.Copy` |
| `Helpers.World.ExecuteCommand` | src/manager.rs:242-255 | appends `(program, args)` to the log unless the run is dry |
| `Reconcile.FromConfig` | src/manager.rs:16-26 | the manager holds exactly the five collections of the configuration |
| `Reconcile.New` | src/manager.rs:30-44 | the manager holds exactly the five collections it is given |
| `Reconcile.Fold` | src/manager.rs:47-69 | one loop of `apply`: the items in order, each handed to its helper, ending at the first error with `?`. Stated by `FoldStopsAtFirstError` and `FailingItemEndsFold` |
| `Reconcile.Manager.Run` | src/manager.rs:46-72 | `apply` as a function: the five folds chained, each running only when the one before it succeeded. `Manager.Apply` is proved to end where it says |
| `Reconcile.Manager.Apply` | src/manager.rs:46-72 | the five loops in order, returning at the first error. Ends in the state, and with the result, of `Run` |
| `Reconcile.Manager.ApplyDirectories` | src/manager.rs:47-49 | `create_directory` on each directory, up to the first error: the fold `Run` starts with |
| `Reconcile.Manager.ApplyEmptyFiles` | src/manager.rs:51-53 | `create_file` on each empty file, up to the first error |
| `Reconcile.Manager.ApplyLinks` | src/manager.rs:55-57 | `create_symlink` on each link, up to the first error |
| `Reconcile.Manager.ApplyCopies` | src/manager.rs:59-61 | `copy` on each copy, up to the first error |
| `Reconcile.Manager.ApplyCommands` | src/manager.rs:63-69 | each command line split into program and arguments. An empty one is `NoCommandProvided` |
| `Reconcile.FoldStopsAtFirstError` | src/manager.rs:46-72 | running `a` and then `b` is running `a + b`. When `a` fails, nothing of `b` runs, and the result is `a`'s error in the state `a` left, so items already handled stay applied |
| `Reconcile.FailingItemEndsFold` | src/manager.rs:47-69 | when the first `n` items of a loop succeed and item `n` fails, the loop's result is that item's error in the state it left. No item after it is performed |
| `Reconcile.FailingDirectoryEndsRun` | src/manager.rs:46-49 | a directory that cannot be created, after the ones before it succeeded, ends the whole run with its error. No later directory, file, link, copy or command is handled |
| `Reconcile.FailingCopyEndsRun` | src/manager.rs:46-61 | a copy that fails, once the directories, files and links are all done and the copies before it succeeded, ends the run with its error. No later copy and no command runs |
| `Reconcile.EmptyCommandAborts` | src/manager.rs:63-69 | an empty command line ends the command loop with `NoCommandProvided`. The lines before it have run and none after it does |
| `Reconcile.DryRunChangesNoFiles` | src/manager.rs:46-72 | a dry run leaves the filesystem and the command log exactly as they were, whatever the configuration |
| `Reconcile.ReplaceRunReadsNoInput` | src/manager.rs:46-72 | with `replace`, a whole run reads no standard input |
| `Reconcile.RunKeepsValid` | src/manager.rs:46-72 | a run keeps the filesystem a valid tree (every entry's parent a directory), provided no copy has the empty path as its destination |

## Where the code and its description differ

The model follows the code in each of these places:

- `ask_user` at the end of input returns `Err(StandardInput)` (src/manager.rs:95). It
  does not answer "no".
- Removal failures surface as the wrapped I/O error (`StdIo`), and so do
  canonicalization, link and file-copy (`fs::copy`) failures. The directory copy
  fails with the wrapped `fs_extra` error (`FsExtra`). The `Error` enum (src/error.rs:2-23) has
  no `RemoveFile`, `CanonicalizePath`, `CreateSymbolLink` or `CopyFile` variants.
- When `dest` is a link that points elsewhere, `create_symlink` removes the old
  link's target, not the link (src/manager.rs:161-163). This is because the match arm
  rebinds `dest`. The new `symlink` then fails on the still-present link.
- The directory branch of `copy` calls `create_dir_all` on the source, which already
  exists (src/manager.rs:125). It does not call it on the parent of `dest`.
- `create_file` passes an already substituted parent to `create_directory`, which
  substitutes it again (src/manager.rs:213,222,177).
- `create_symlink` checks for a dry run before it looks at `dest` at all
  (src/manager.rs:152-154). So a dry run never prompts about links. `create_file` and
  `copy` prompt before their dry-run check.

## Left out

- The printed messages (`println!`, `eprintln!`): they do not affect any state.
- Locking standard input: input is the sequence of lines still to be read.
- Read errors on standard input. Reading a line never fails in the model, so the
  `Err(StdIo)` that `line?` returns on an I/O error or invalid UTF-8
  (src/manager.rs:84) is not modelled. The prompt fails only at the end of input.
- Environment variables that are set but are not valid Unicode. The environment is a
  map of strings, so `from_env` fails only for a missing variable. The real `env::var`
  also gives `EnvUserNotFound`/`EnvHomeNotFound` for a value that is not Unicode
  (src/context.rs:12-20).
- Spawning and waiting for processes: a command is recorded as `(program, args)` in
  the log. Its exit status is ignored by the code anyway.
- Helpers.World.ExecuteCommand: never fails. Spawn and wait failures (a program that
  does not exist) are not modelled, so the command loop ends only at an empty line.
- The system calls themselves. `canonicalize`, `read_link`, `create_dir_all`, open,
  `symlink`, `remove_file`, `remove_dir_all` and `fs::copy` are functions on the map.
  Their failures are reduced to the OS error kinds listed in `Errors.IoErrorKind`.
  Permissions, mount points and races with other processes are not modelled.
- Symbolic links are followed only at the last component of a path. A link used as
  an intermediate directory counts as not-a-directory. `canonicalize` returns the
  entry the link chain ends at, and the number of links it follows before failing is
  left unspecified (`MaxSymlinkHops`).
- There is no working directory. A relative path is a key of the map like any other,
  so `x` and `<cwd>/x` never name the same entry. `canonicalize` of a relative path
  returns a relative key, where the OS returns an absolute path.
- A relative link target is looked up as a key of the map from the top, not against
  the directory the link is in. A link `/h/.x -> x` with a file at `/h/x` is therefore
  dangling in the model, so `create_file`, `copy` and `create_symlink` can take
  different branches on such a link than they would on a real system.
- Opening or copying through a dangling link is an error in the model. A real OS
  would create the link's target.
- The options of `fs_extra::dir::copy` (`overwrite`, `skip_exist`, `copy_inside`,
  buffer size) are not modelled entry by entry. The directory copy is one step: it
  creates `dest` with its ancestors and grafts the tree below the source under it. It
  fails with `FsExtra` when `dest` is already present or cannot be created.
- Hash-map iteration order: `Apply` takes an explicit key order for `links` and
  `copys`.
- `Path::iter` normalisation (`//`, `.`) and lossy UTF-8 conversion: paths are given
  as their components.
- `to_lowercase` is modelled on the letters A to Z only. No other character lowercases
  to a letter of `yes` or `no`, so the answers recognised are the same.
- Configuration loading (src/config.rs), command-line parsing and printing
  (src/command.rs), the `From` conversions of src/error.rs and the exit code handling
  of src/main.rs are not part of this model. `Config` keeps only the configuration's
  fields.
