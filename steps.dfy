/**
 * What each helper of src/manager.rs does, as a function from the state before the
 * call to the state after it and the value it returns. The state is the filesystem,
 * the standard-input lines not read yet and the commands spawned so far.
 */
module Steps {
  import opened Errors
  import opened Strings
  import opened Paths
  import opened Placeholders
  import opened FileSystem

  /** A spawned process: the program and its arguments. */
  datatype Invocation = Invocation(program: string, args: seq<string>)

  datatype State = State(fs: Fs, input: seq<string>, log: seq<Invocation>)

  /** The state after a helper and what it returned. */
  datatype Step = Step(st: State, res: Result<()>)

  /** What `ask_user` returned and the input lines it left unread. */
  datatype Reply = Reply(answer: Result<bool>, rest: seq<string>)

  /** How `ask_user` reads one line: trimmed and lowercased, `yes`/`y` and `no`/`n` are answers. */
  function Answer(line: string): Option<bool> {
    var word := Lowercase(Trim(line));
    if word == "yes" || word == "y" then Some(true)
    else if word == "no" || word == "n" then Some(false)
    else None
  }

  /** `ask_user`: lines are read until one is an answer; at the end of the input it fails. */
  function Ask(input: seq<string>): (r: Reply)
    ensures r.answer.Err? ==> r.answer == Err(StandardInput)
    ensures |r.rest| <= |input| && r.rest == input[|input| - |r.rest|..]
    decreases |input|
  {
    if input == [] then Reply(Err(StandardInput), [])
    else match Answer(input[0])
      case Some(yes) => Reply(Ok(yes), input[1..])
      case None => Ask(input[1..])
  }

  /** `replace || ask_user(..)`: with `replace` the user is not asked. */
  function Confirm(input: seq<string>, replace: bool): (r: Reply)
    ensures |r.rest| <= |input| && r.rest == input[|input| - |r.rest|..]
  {
    if replace then Reply(Ok(true), input) else Ask(input)
  }

  /** A system call's result taken into the state: its new filesystem, or its error. */
  function Lift(st: State, r: Result<Fs>): Step {
    match r
    case Ok(f) => Step(st.(fs := f), Ok(()))
    case Err(e) => Step(st, Err(e))
  }

  /** `remove_all`: a file, or a symbolic link itself, is unlinked; anything else is removed as a directory tree. */
  function RemoveAll(st: State, dry: bool, p: Path): (r: Step)
    ensures r.st.input == st.input && r.st.log == st.log
  {
    if dry then Step(st, Ok(()))
    else if IsFile(st.fs, p) || ReadLink(st.fs, p).Ok? then Lift(st, RemoveFile(st.fs, p))
    else Lift(st, RemoveDirAll(st.fs, p))
  }

  /** `create_directory`: the substituted path, unless it is already a directory, with its ancestors. */
  function CreateDirectory(st: State, dry: bool, ctx: Context, path: Path): (r: Step)
    ensures r.st.input == st.input && r.st.log == st.log
  {
    var p := ctx.ApplyPath(path);
    if dry then Step(st, Ok(()))
    else if IsDir(st.fs, p) then Step(st, Ok(()))
    else Lift(st, CreateDirAll(st.fs, p))
  }

  /** `create_empty_file`: opens the path for writing, creating it if needed, without truncating. */
  function CreateEmptyFile(st: State, dry: bool, p: Path): (r: Step)
    ensures r.st.input == st.input && r.st.log == st.log
  {
    if dry then Step(st, Ok(()))
    else Lift(st, OpenWrite(st.fs, p, None))
  }

  /**
   * `create_file`: an existing path is removed once the user agrees; whatever the answer,
   * the parent directory is created (its already substituted components go through
   * `apply_path` a second time) and the file is opened.
   */
  function CreateFile(st: State, dry: bool, replace: bool, ctx: Context, path: Path): (r: Step)
    requires Parent(ctx.ApplyPath(path)).Some?
    ensures r.st.input == st.input || r.st.input == Confirm(st.input, replace).rest
    ensures r.st.log == st.log
  {
    var p := ctx.ApplyPath(path);
    var cleared :=
      if !Exists(st.fs, p) then Step(st, Ok(()))
      else
        var c := Confirm(st.input, replace);
        match c.answer
        case Err(e) => Step(st.(input := c.rest), Err(e))
        case Ok(yes) => if yes then RemoveAll(st.(input := c.rest), dry, p) else Step(st.(input := c.rest), Ok(()));
    if cleared.res.Err? then cleared
    else
      var made := CreateDirectory(cleared.st, dry, ctx, Parent(p).value);
      if made.res.Err? then made
      else CreateEmptyFile(made.st, dry, p)
  }

  /**
   * `create_symlink`: `dest` becomes a link to the canonical `src`. A link already there
   * is kept when it points at `src`; for any other link the user is asked, and agreeing
   * removes the path the old link points at (the arm rebinds `dest` to it), not the link.
   */
  function CreateSymlink(st: State, dry: bool, replace: bool, ctx: Context, src: Path, dest: Path): (r: Step)
    ensures r.st.input == st.input || r.st.input == Confirm(st.input, replace).rest
    ensures r.st.log == st.log
  {
    match Canonicalize(st.fs, ctx.ApplyPath(src))
    case Err(e) => Step(st, Err(e))
    case Ok(s) =>
      var d := ctx.ApplyPath(dest);
      if dry then Step(st, Ok(()))
      else match ReadLink(st.fs, d)
        case Err(_) => Lift(st, Symlink(st.fs, s, d))
        case Ok(target) =>
          if target == s then Step(st, Ok(()))
          else
            var c := Confirm(st.input, replace);
            var asked := st.(input := c.rest);
            match c.answer
            case Err(e) => Step(asked, Err(e))
            case Ok(yes) =>
              if !yes then Lift(asked, Symlink(asked.fs, s, d))
              else
                var removed := RemoveAll(asked, dry, target);
                if removed.res.Err? then removed
                else Lift(removed.st, Symlink(removed.st.fs, s, d))
  }

  /**
   * `copy`: an existing `dest` is removed once the user agrees, and the copy is skipped
   * when they do not; then a file is copied with `fs::copy` and a directory tree with
   * the directory copy, after a `create_dir_all` of the source itself.
   */
  function Copy(st: State, dry: bool, replace: bool, ctx: Context, src: Path, dest: Path): (r: Step)
    ensures r.st.input == st.input || r.st.input == Confirm(st.input, replace).rest
    ensures r.st.log == st.log
  {
    match Canonicalize(st.fs, ctx.ApplyPath(src))
    case Err(e) => Step(st, Err(e))
    case Ok(s) =>
      var d := ctx.ApplyPath(dest);
      var cleared :=
        if !Exists(st.fs, d) then Some(Step(st, Ok(())))
        else
          var c := Confirm(st.input, replace);
          match c.answer
          case Err(e) => Some(Step(st.(input := c.rest), Err(e)))
          case Ok(yes) => if yes then Some(RemoveAll(st.(input := c.rest), dry, d)) else None;
      if cleared.None? then Step(st.(input := Confirm(st.input, replace).rest), Ok(()))
      else if cleared.value.res.Err? || dry then cleared.value
      else Transfer(cleared.value.st, s, d)
  }

  /** The copy proper: `fs::copy` for a file, otherwise `create_dir_all(src)` and the directory copy. */
  function Transfer(st: State, s: Path, d: Path): (r: Step)
    ensures r.st.input == st.input && r.st.log == st.log
  {
    if IsFile(st.fs, s) then Lift(st, CopyFile(st.fs, s, d))
    else match CreateDirAll(st.fs, s)
      case Err(e) => Step(st, Err(e))
      case Ok(f) => Lift(st.(fs := f), CopyTree(f, s, d))
  }

  /** `execute_command`: the program is spawned with its arguments and waited for; its exit status is ignored. */
  function ExecuteCommand(st: State, dry: bool, program: string, args: seq<string>): (r: Step)
    ensures r.res.Ok? && r.st.fs == st.fs && r.st.input == st.input
    ensures dry ==> r == Step(st, Ok(()))
    ensures !dry ==> r.st.log == st.log + [Invocation(program, args)]
  {
    if dry then Step(st, Ok(()))
    else Step(st.(log := st.log + [Invocation(program, args)]), Ok(()))
  }

  /**
   * `ask_user` fails exactly when no line is an answer, and then it has read every line
   * and fails with `StandardInput`.
   */
  lemma {:induction false} AskFailsWithoutAnswer(input: seq<string>)
    ensures Ask(input).answer.Err? <==> forall j | 0 <= j < |input| :: Answer(input[j]).None?
    ensures Ask(input).answer.Err? ==> Ask(input) == Reply(Err(StandardInput), [])
    decreases |input|
  {
    if input != [] {
      var tail := input[1..];
      AskFailsWithoutAnswer(tail);
      assert forall j | 1 <= j < |input| :: input[j] == tail[j - 1];
    }
  }

  /**
   * When line `i` is the first line that is an answer, `ask_user` answers with it and
   * leaves exactly the lines after it unread.
   */
  lemma {:induction false} AskFindsFirstAnswer(input: seq<string>, i: nat)
    requires i < |input| && Answer(input[i]).Some?
    requires forall j | 0 <= j < i :: Answer(input[j]).None?
    ensures Ask(input) == Reply(Ok(Answer(input[i]).value), input[i + 1..])
    decreases i
  {
    if i > 0 {
      var tail := input[1..];
      assert Answer(input[0]).None?;
      assert forall j | 0 <= j < i - 1 :: tail[j] == input[j + 1];
      AskFindsFirstAnswer(tail, i - 1);
      assert tail[i - 1 + 1..] == input[i + 1..];
    }
  }

  /** With `replace` set, `create_file` reads no input. */
  lemma CreateFileWithReplaceReadsNothing(st: State, dry: bool, ctx: Context, path: Path)
    requires Parent(ctx.ApplyPath(path)).Some?
    ensures CreateFile(st, dry, true, ctx, path).st.input == st.input
  {
    var p := ctx.ApplyPath(path);
    assert Confirm(st.input, true) == Reply(Ok(true), st.input);
    var cleared := if Exists(st.fs, p) then RemoveAll(st, dry, p) else Step(st, Ok(()));
    assert cleared.st.input == st.input;
    if cleared.res.Ok? {
      var made := CreateDirectory(cleared.st, dry, ctx, Parent(p).value);
      assert made.st.input == st.input;
      if made.res.Ok? {
        assert CreateEmptyFile(made.st, dry, p).st.input == st.input;
      }
    }
  }

  /** With `replace` set, `create_symlink` reads no input. */
  lemma CreateSymlinkWithReplaceReadsNothing(st: State, dry: bool, ctx: Context, src: Path, dest: Path)
    ensures CreateSymlink(st, dry, true, ctx, src, dest).st.input == st.input
  {
    assert Confirm(st.input, true) == Reply(Ok(true), st.input);
    var r := CreateSymlink(st, dry, true, ctx, src, dest);
    match Canonicalize(st.fs, ctx.ApplyPath(src))
    case Err(_) =>
    case Ok(s) =>
      var d := ctx.ApplyPath(dest);
      if !dry {
        match ReadLink(st.fs, d)
        case Err(_) =>
        case Ok(target) =>
          if target != s {
            var removed := RemoveAll(st, dry, target);
            assert removed.st.input == st.input;
            assert r == if removed.res.Err? then removed else Lift(removed.st, Symlink(removed.st.fs, s, d));
          }
      }
  }

  /** With `replace` set, `copy` reads no input. */
  lemma CopyWithReplaceReadsNothing(st: State, dry: bool, ctx: Context, src: Path, dest: Path)
    ensures Copy(st, dry, true, ctx, src, dest).st.input == st.input
  {
    assert Confirm(st.input, true) == Reply(Ok(true), st.input);
    var r := Copy(st, dry, true, ctx, src, dest);
    match Canonicalize(st.fs, ctx.ApplyPath(src))
    case Err(_) =>
    case Ok(s) =>
      var d := ctx.ApplyPath(dest);
      if Exists(st.fs, d) {
        var removed := RemoveAll(st, dry, d);
        assert removed.st.input == st.input;
        assert r == if removed.res.Err? || dry then removed else Transfer(removed.st, s, d);
      } else {
        assert r == if dry then Step(st, Ok(())) else Transfer(st, s, d);
      }
  }

  /** In a dry run no helper changes the filesystem or spawns anything. */
  lemma DryRunChangesNothing(st: State, replace: bool, ctx: Context, path: Path, src: Path, dest: Path, program: string, args: seq<string>)
    ensures RemoveAll(st, true, path) == Step(st, Ok(()))
    ensures CreateDirectory(st, true, ctx, path) == Step(st, Ok(()))
    ensures CreateEmptyFile(st, true, path) == Step(st, Ok(()))
    ensures ExecuteCommand(st, true, program, args) == Step(st, Ok(()))
    ensures CreateSymlink(st, true, replace, ctx, src, dest).st == st
  {
  }

  /** A dry `create_file` may read input but changes neither the filesystem nor the command log. */
  lemma DryCreateFileChangesNoFiles(st: State, replace: bool, ctx: Context, path: Path)
    requires Parent(ctx.ApplyPath(path)).Some?
    ensures var r := CreateFile(st, true, replace, ctx, path); r.st.fs == st.fs && r.st.log == st.log
  {
    var p := ctx.ApplyPath(path);
    var c := Confirm(st.input, replace);
    var cleared := if Exists(st.fs, p) then Step(st.(input := c.rest), if c.answer.Err? then Err(c.answer.error) else Ok(()))
      else Step(st, Ok(()));
    assert CreateFile(st, true, replace, ctx, path)
      == if cleared.res.Err? then cleared else Step(cleared.st, Ok(()));
  }

  /** A dry `copy` may read input but changes neither the filesystem nor the command log. */
  lemma DryCopyChangesNoFiles(st: State, replace: bool, ctx: Context, src: Path, dest: Path)
    ensures var r := Copy(st, true, replace, ctx, src, dest); r.st.fs == st.fs && r.st.log == st.log
  {
  }

  /** A dry `create_file` still asks about an existing path, and so still reads input. */
  lemma DryCreateFileStillAsks(st: State, ctx: Context, path: Path)
    requires Parent(ctx.ApplyPath(path)).Some? && Exists(st.fs, ctx.ApplyPath(path))
    ensures var r := CreateFile(st, true, false, ctx, path);
      r.st == st.(input := Ask(st.input).rest) && (r.res.Ok? <==> Ask(st.input).answer.Ok?)
  {
  }

  /** A dry `copy` still asks about an existing `dest`, and so still reads input. */
  lemma DryCopyStillAsks(st: State, ctx: Context, src: Path, dest: Path)
    requires Canonicalize(st.fs, ctx.ApplyPath(src)).Ok? && Exists(st.fs, ctx.ApplyPath(dest))
    ensures var r := Copy(st, true, false, ctx, src, dest);
      r.st == st.(input := Ask(st.input).rest) && (r.res.Ok? <==> Ask(st.input).answer.Ok?)
  {
  }

  /**
   * `remove_all` succeeds exactly when something is at the path. It then removes that
   * entry alone when it is a file or a link, the entry with everything below it when it
   * is a directory, and leaves every other entry as it was.
   */
  lemma RemoveAllRemovesOnlyTarget(st: State, p: Path)
    requires Valid(st.fs)
    ensures var r := RemoveAll(st, false, p);
      && r.st.input == st.input && r.st.log == st.log
      && (r.res.Ok? <==> p in st.fs)
      && (r.res.Err? ==> r == Step(st, Err(StdIo(NotFound))))
      && (r.res.Ok? ==> forall q | q in st.fs :: q in r.st.fs <==> !(q == p || (st.fs[p].Dir? && p < q)))
      && (forall q | q in r.st.fs :: q in st.fs && r.st.fs[q] == st.fs[q])
      && Valid(r.st.fs)
  {
    if p in st.fs {
      if st.fs[p].Dir? {
        assert !IsFile(st.fs, p);
        RemoveDirAllValid(st.fs, p);
      } else {
        RemoveFileValid(st.fs, p);
      }
    }
  }

  /**
   * `create_directory` leaves an existing directory alone. Otherwise it succeeds exactly
   * when no ancestor is in the way, and then the path and all its ancestors are directories
   * and every entry that was there is unchanged.
   */
  lemma CreateDirectoryMakesDirs(st: State, ctx: Context, path: Path)
    requires Valid(st.fs)
    ensures var p := ctx.ApplyPath(path); var r := CreateDirectory(st, false, ctx, path);
      && r.st.input == st.input && r.st.log == st.log
      && (IsDir(st.fs, p) ==> r == Step(st, Ok(())))
      && (r.res.Ok? <==> CanCreateDirs(st.fs, p))
      && (r.res.Ok? ==>
            && r.st.fs == WithDirs(st.fs, p)
            && (p != [] ==> IsDir(r.st.fs, p))
            && (forall i | 1 <= i < |p| :: DirAt(r.st.fs, p[..i])))
      && (forall q | q in st.fs :: q in r.st.fs && r.st.fs[q] == st.fs[q])
      && Valid(r.st.fs)
  {
    var p := ctx.ApplyPath(path);
    if IsDir(st.fs, p) {
      AncestorsAreDirs(st.fs, p);
      PrefixesPresent(st.fs, p);
    } else {
      CreateDirAllSpec(st.fs, p);
      if CreateDirAll(st.fs, p).Ok? { CreateDirAllMakesDirs(st.fs, p); }
    }
  }

  /**
   * `create_empty_file` never truncates: when it succeeds the path leads to a file,
   * every entry that was there, contents included, is unchanged, and the only entry
   * that can be added is an empty file at the path itself.
   */
  lemma CreateEmptyFileKeepsContents(st: State, p: Path)
    requires Valid(st.fs)
    ensures var r := CreateEmptyFile(st, false, p);
      && r.st.input == st.input && r.st.log == st.log
      && (r.res.Ok? ==> IsFile(r.st.fs, p))
      && (r.res.Ok? ==> r.st.fs.Keys == st.fs.Keys + {p} && (p !in st.fs ==> r.st.fs[p] == File([])))
      && (forall q | q in st.fs :: q in r.st.fs && r.st.fs[q] == st.fs[q])
      && Valid(r.st.fs)
  {
    var r := OpenWrite(st.fs, p, None);
    if r.Ok? {
      OpenWriteValid(st.fs, p, None);
      if Canonicalize(st.fs, p).Err? {
        assert r.value == st.fs[p := File([])];
        assert Canonicalize(r.value, p) == Ok(p);
      }
    }
  }

  /**
   * A `create_file` whose deletion the user declines carries on: it still creates the
   * parent and opens the file, and every entry that was there keeps its contents.
   */
  lemma CreateFileDeclinedKeepsContents(st: State, dry: bool, ctx: Context, path: Path)
    requires Valid(st.fs) && Parent(ctx.ApplyPath(path)).Some?
    requires Exists(st.fs, ctx.ApplyPath(path)) && Ask(st.input).answer == Ok(false)
    ensures var r := CreateFile(st, dry, false, ctx, path);
      && r.st.input == Ask(st.input).rest
      && (forall q | q in st.fs :: q in r.st.fs && r.st.fs[q] == st.fs[q])
      && (r.res.Ok? && !dry ==> IsFile(r.st.fs, ctx.ApplyPath(path)))
  {
    var p := ctx.ApplyPath(path);
    var st1 := st.(input := Ask(st.input).rest);
    if !dry {
      CreateDirectoryMakesDirs(st1, ctx, Parent(p).value);
      var made := CreateDirectory(st1, false, ctx, Parent(p).value);
      if made.res.Ok? { CreateEmptyFileKeepsContents(made.st, p); }
    }
  }

  /** When `create_file` succeeds outside a dry run, the path leads to a file; a valid tree stays valid. */
  lemma CreateFileMakesFile(st: State, replace: bool, ctx: Context, path: Path)
    requires Valid(st.fs) && Parent(ctx.ApplyPath(path)).Some?
    ensures var r := CreateFile(st, false, replace, ctx, path);
      && r.st.log == st.log
      && Valid(r.st.fs)
      && (r.res.Ok? ==> IsFile(r.st.fs, ctx.ApplyPath(path)))
  {
    var p := ctx.ApplyPath(path);
    var cleared :=
      if !Exists(st.fs, p) then Step(st, Ok(()))
      else
        var c := Confirm(st.input, replace);
        match c.answer
        case Err(e) => Step(st.(input := c.rest), Err(e))
        case Ok(yes) => if yes then RemoveAll(st.(input := c.rest), false, p) else Step(st.(input := c.rest), Ok(()));
    if Exists(st.fs, p) { RemoveAllRemovesOnlyTarget(st.(input := Confirm(st.input, replace).rest), p); }
    if cleared.res.Ok? {
      CreateDirectoryMakesDirs(cleared.st, ctx, Parent(p).value);
      var made := CreateDirectory(cleared.st, false, ctx, Parent(p).value);
      if made.res.Ok? { CreateEmptyFileKeepsContents(made.st, p); }
    }
  }

  /**
   * A `create_file` on an existing path whose deletion is confirmed (with `replace`, or
   * by a "yes") removes the old entry first: on success the path holds a new, empty file,
   * whatever was there before, and only the answer was read.
   */
  lemma CreateFileReplacesWithEmptyFile(st: State, replace: bool, ctx: Context, path: Path)
    requires Valid(st.fs) && Parent(ctx.ApplyPath(path)).Some?
    requires Exists(st.fs, ctx.ApplyPath(path)) && Confirm(st.input, replace).answer == Ok(true)
    ensures var p := ctx.ApplyPath(path); var r := CreateFile(st, false, replace, ctx, path);
      && r.st.input == Confirm(st.input, replace).rest
      && (r.res.Ok? ==> p in r.st.fs && r.st.fs[p] == File([]))
  {
    var p := ctx.ApplyPath(path);
    var st0 := st.(input := Confirm(st.input, replace).rest);
    RemoveAllRemovesOnlyTarget(st0, p);
    var cleared := RemoveAll(st0, false, p);
    CreateDirectoryMakesDirs(cleared.st, ctx, Parent(p).value);
    var made := CreateDirectory(cleared.st, false, ctx, Parent(p).value);
    if made.res.Ok? {
      CreateEmptyFileKeepsContents(made.st, p);
      WithDirsAdds(cleared.st.fs, ctx.ApplyPath(Parent(p).value));
    }
  }

  /**
   * A successful `create_file` outside a dry run changes nothing but the path: every
   * entry not at or below the path is kept as it was, and every entry that is new or
   * different is the path itself or a directory created on the way to its parent.
   */
  lemma CreateFileChangesOnlyItsPath(st: State, replace: bool, ctx: Context, path: Path)
    requires Valid(st.fs) && Parent(ctx.ApplyPath(path)).Some?
    ensures var p := ctx.ApplyPath(path); var dir := ctx.ApplyPath(Parent(p).value);
      var r := CreateFile(st, false, replace, ctx, path);
      r.res.Ok? ==>
        && (forall q | q in st.fs && !(p <= q) :: q in r.st.fs && r.st.fs[q] == st.fs[q])
        && (forall q | q in r.st.fs :: (q in st.fs && r.st.fs[q] == st.fs[q]) || q == p || (q in Prefixes(dir) && r.st.fs[q] == Dir))
  {
    var p := ctx.ApplyPath(path);
    var dir := ctx.ApplyPath(Parent(p).value);
    var r := CreateFile(st, false, replace, ctx, path);
    var c := Confirm(st.input, replace);
    var cleared :=
      if !Exists(st.fs, p) then Step(st, Ok(()))
      else
        match c.answer
        case Err(e) => Step(st.(input := c.rest), Err(e))
        case Ok(yes) => if yes then RemoveAll(st.(input := c.rest), false, p) else Step(st.(input := c.rest), Ok(()));
    if Exists(st.fs, p) { RemoveAllRemovesOnlyTarget(st.(input := c.rest), p); }
    if cleared.res.Ok? {
      assert forall q | q in st.fs && !(p <= q) :: q in cleared.st.fs && cleared.st.fs[q] == st.fs[q];
      assert forall q | q in cleared.st.fs :: q in st.fs && cleared.st.fs[q] == st.fs[q];
      CreateDirectoryMakesDirs(cleared.st, ctx, Parent(p).value);
      var made := CreateDirectory(cleared.st, false, ctx, Parent(p).value);
      if made.res.Ok? {
        CreateEmptyFileKeepsContents(made.st, p);
        WithDirsAdds(cleared.st.fs, dir);
        assert r == CreateEmptyFile(made.st, false, p);
      }
    }
  }

  /** `create_symlink` changes nothing when the substituted `src` cannot be canonicalized. */
  lemma SymlinkSourceMissingChangesNothing(st: State, dry: bool, replace: bool, ctx: Context, src: Path, dest: Path)
    requires Canonicalize(st.fs, ctx.ApplyPath(src)).Err?
    ensures CreateSymlink(st, dry, replace, ctx, src, dest) == Step(st, Err(Canonicalize(st.fs, ctx.ApplyPath(src)).error))
  {
  }

  /** A `dest` that already links to the canonical `src` is kept as it is. */
  lemma SymlinkAlreadyInPlace(st: State, replace: bool, ctx: Context, src: Path, dest: Path)
    requires Canonicalize(st.fs, ctx.ApplyPath(src)).Ok?
    requires ctx.ApplyPath(dest) in st.fs && st.fs[ctx.ApplyPath(dest)] == Link(Canonicalize(st.fs, ctx.ApplyPath(src)).value)
    ensures CreateSymlink(st, false, replace, ctx, src, dest) == Step(st, Ok(()))
  {
  }

  /** A `dest` occupied by something other than a link is left alone, and the link fails with EEXIST. */
  lemma SymlinkOverOccupiedPathFails(st: State, replace: bool, ctx: Context, src: Path, dest: Path)
    requires Canonicalize(st.fs, ctx.ApplyPath(src)).Ok?
    requires ctx.ApplyPath(dest) in st.fs && !st.fs[ctx.ApplyPath(dest)].Link?
    ensures CreateSymlink(st, false, replace, ctx, src, dest) == Step(st, Err(StdIo(AlreadyExists)))
  {
  }

  /**
   * Agreeing to replace a link that points elsewhere removes what the old link points
   * at, not the link itself; the new link then meets the old one and fails with EEXIST.
   */
  lemma SymlinkReplaceRemovesOldTarget(st: State, ctx: Context, src: Path, dest: Path, target: Path)
    requires Valid(st.fs)
    requires Canonicalize(st.fs, ctx.ApplyPath(src)).Ok?
    requires ctx.ApplyPath(dest) in st.fs && st.fs[ctx.ApplyPath(dest)] == Link(target)
    requires target != Canonicalize(st.fs, ctx.ApplyPath(src)).value
    requires target in st.fs && !(target <= ctx.ApplyPath(dest))
    ensures var r := CreateSymlink(st, false, true, ctx, src, dest);
      && r.res == Err(StdIo(AlreadyExists))
      && target !in r.st.fs
      && r.st.fs[ctx.ApplyPath(dest)] == Link(target)
  {
    RemoveAllRemovesOnlyTarget(st, target);
  }

  /**
   * When `create_symlink` succeeds outside a dry run, `dest` links to the canonical `src`
   * and no other entry is added, removed or changed; a valid tree stays valid.
   */
  lemma SymlinkMakesLink(st: State, replace: bool, ctx: Context, src: Path, dest: Path)
    requires Valid(st.fs)
    ensures var r := CreateSymlink(st, false, replace, ctx, src, dest);
      && r.st.log == st.log
      && Valid(r.st.fs)
      && (r.res.Ok? ==>
            r.st.fs == st.fs[ctx.ApplyPath(dest) := Link(Canonicalize(st.fs, ctx.ApplyPath(src)).value)])
  {
    var c := Canonicalize(st.fs, ctx.ApplyPath(src));
    var d := ctx.ApplyPath(dest);
    if c.Ok? {
      var s := c.value;
      var c1 := Confirm(st.input, replace);
      var asked := st.(input := c1.rest);
      match ReadLink(st.fs, d)
      case Err(_) =>
        if Symlink(st.fs, s, d).Ok? { SymlinkValid(st.fs, s, d); }
      case Ok(target) =>
        if target != s && c1.answer.Ok? {
          if c1.answer.value {
            RemoveAllRemovesOnlyTarget(asked, target);
            RelinkAfterRemoval(asked, s, d, target);
          } else {
            if Symlink(asked.fs, s, d).Ok? { SymlinkValid(asked.fs, s, d); }
          }
        }
    }
  }

  /**
   * When removing `target` took `d` away but not as `target` itself, it took a directory
   * above `d`, and with it `d`'s parent: no new entry can be made at `d`.
   */
  lemma OnlyDestRemoved(fs: Fs, f: Fs, target: Path, d: Path)
    requires Valid(fs) && target in fs && d in fs && d !in f
    requires forall q | q in fs :: q in f <==> !(q == target || (fs[target].Dir? && target < q))
    requires forall q | q in f :: q in fs && f[q] == fs[q]
    ensures d != target ==> CheckParent(f, d).Err?
  {
    if d != target {
      assert target < d && |d| > 1;
      var parent := d[..|d| - 1];
      assert target <= parent;
      assert parent in fs;
    }
  }

  /**
   * Agreeing to replace a link at `d` that points at `target`: when the removal of
   * `target` and the new link both succeed, the old link was `target` itself, and the
   * new link takes its place with nothing else changed.
   */
  lemma RelinkAfterRemoval(asked: State, s: Path, d: Path, target: Path)
    requires Valid(asked.fs) && d in asked.fs && asked.fs[d] == Link(target)
    ensures var removed := RemoveAll(asked, false, target);
      removed.res.Ok? && Symlink(removed.st.fs, s, d).Ok? ==>
        Symlink(removed.st.fs, s, d).value == asked.fs[d := Link(s)] && Valid(asked.fs[d := Link(s)])
  {
    RemoveAllRemovesOnlyTarget(asked, target);
    var removed := RemoveAll(asked, false, target);
    if removed.res.Ok? && d !in removed.st.fs {
      OnlyDestRemoved(asked.fs, removed.st.fs, target, d);
      if d == target {
        assert removed.st.fs == asked.fs - {d};
        if Symlink(removed.st.fs, s, d).Ok? { SymlinkValid(removed.st.fs, s, d); }
      }
    }
  }

  /** `copy` changes nothing when the substituted `src` cannot be canonicalized. */
  lemma CopySourceMissingChangesNothing(st: State, dry: bool, replace: bool, ctx: Context, src: Path, dest: Path)
    requires Canonicalize(st.fs, ctx.ApplyPath(src)).Err?
    ensures Copy(st, dry, replace, ctx, src, dest) == Step(st, Err(Canonicalize(st.fs, ctx.ApplyPath(src)).error))
  {
  }

  /** A `copy` whose deletion of an existing `dest` the user declines is skipped: `Ok`, and only the answer is consumed. */
  lemma CopyDeclinedIsSkipped(st: State, dry: bool, ctx: Context, src: Path, dest: Path)
    requires Canonicalize(st.fs, ctx.ApplyPath(src)).Ok? && Exists(st.fs, ctx.ApplyPath(dest))
    requires Ask(st.input).answer == Ok(false)
    ensures Copy(st, dry, false, ctx, src, dest) == Step(st.(input := Ask(st.input).rest), Ok(()))
  {
  }

  /** Copying a file to a free `dest` writes its contents there and changes nothing else. */
  lemma CopyFileWritesContents(st: State, replace: bool, ctx: Context, src: Path, dest: Path)
    requires Canonicalize(st.fs, ctx.ApplyPath(src)).Ok?
    requires st.fs[Canonicalize(st.fs, ctx.ApplyPath(src)).value].File?
    requires ctx.ApplyPath(dest) !in st.fs
    ensures var s := Canonicalize(st.fs, ctx.ApplyPath(src)).value; var d := ctx.ApplyPath(dest);
      var r := Copy(st, false, replace, ctx, src, dest);
      && (r.res.Ok? <==> CheckParent(st.fs, d).Ok?)
      && (r.res.Ok? ==> r.st == st.(fs := st.fs[d := File(st.fs[s].contents)]))
      && (r.res.Err? ==> r.st == st)
  {
  }

  /**
   * Copying a directory to a free `dest` succeeds exactly when `dest` can be created with
   * its ancestors; then `dest` is a directory holding, at the same relative places,
   * every entry below the source, and every entry that was there is unchanged.
   */
  lemma CopyTreeCopiesEverything(st: State, replace: bool, ctx: Context, src: Path, dest: Path)
    requires Valid(st.fs)
    requires Canonicalize(st.fs, ctx.ApplyPath(src)).Ok?
    requires st.fs[Canonicalize(st.fs, ctx.ApplyPath(src)).value].Dir?
    requires ctx.ApplyPath(dest) !in st.fs && ctx.ApplyPath(dest) != []
    ensures var s := Canonicalize(st.fs, ctx.ApplyPath(src)).value; var d := ctx.ApplyPath(dest);
      var r := Copy(st, false, replace, ctx, src, dest);
      && r.st.input == st.input && r.st.log == st.log
      && (r.res.Ok? <==> CanCreateDirs(st.fs, d))
      && (r.res.Ok? ==>
            && DirAt(r.st.fs, d)
            && (forall q | q in st.fs && s < q :: d + q[|s|..] in r.st.fs && r.st.fs[d + q[|s|..]] == st.fs[q])
            && (forall q | q in st.fs :: q in r.st.fs && r.st.fs[q] == st.fs[q])
            && (forall q | q in r.st.fs && d < q :: s + q[|d|..] in st.fs && r.st.fs[q] == st.fs[s + q[|d|..]])
            && (forall q | q in r.st.fs && q !in st.fs :: (q in Prefixes(d) && r.st.fs[q] == Dir) || d < q))
  {
    var s := Canonicalize(st.fs, ctx.ApplyPath(src)).value;
    var d := ctx.ApplyPath(dest);
    assert Copy(st, false, replace, ctx, src, dest) == Transfer(st, s, d);
    assert Mkdir(st.fs, s) == Err(StdIo(AlreadyExists));
    assert CreateDirAll(st.fs, s) == Ok(st.fs);
    assert Transfer(st, s, d) == Lift(st, CopyTree(st.fs, s, d));
    CopyTreeSpec(st.fs, s, d);
    if CopyTree(st.fs, s, d).Ok? {
      CopyTreeAddsOnlyGraft(st.fs, s, d);
    }
  }

  /** Two prefixes of one path are prefixes of each other. */
  lemma PrefixesComparable(a: Path, b: Path, q: Path)
    ensures a <= q && b <= q ==> a <= b || b <= a
  {
    if a <= q && b <= q && |a| <= |b| {
      assert a == q[..|a|] && b[..|a|] == q[..|a|];
    }
  }

  /**
   * Removing an existing `d` from a valid tree, as a confirmed `copy` does: the removal
   * succeeds, `d` is gone, the tree stays valid, every entry not at or below `d` is
   * kept, and no entry is added or changed.
   */
  lemma RemoveExistingDest(st: State, d: Path)
    requires Valid(st.fs) && d in st.fs
    ensures var removed := RemoveAll(st, false, d);
      && removed.res.Ok? && removed.st.input == st.input && removed.st.log == st.log
      && d !in removed.st.fs && Valid(removed.st.fs)
      && (forall q | q in st.fs && !(d <= q) :: q in removed.st.fs && removed.st.fs[q] == st.fs[q])
      && (forall q | q in removed.st.fs :: q in st.fs && removed.st.fs[q] == st.fs[q])
  {
    RemoveAllRemovesOnlyTarget(st, d);
  }

  /** A confirmed `copy` outside a dry run is the removal of `dest` and then the copy proper. */
  lemma ConfirmedCopy(st: State, replace: bool, ctx: Context, src: Path, dest: Path)
    requires Canonicalize(st.fs, ctx.ApplyPath(src)).Ok?
    requires Exists(st.fs, ctx.ApplyPath(dest)) && Confirm(st.input, replace).answer == Ok(true)
    ensures var removed := RemoveAll(st.(input := Confirm(st.input, replace).rest), false, ctx.ApplyPath(dest));
      Copy(st, false, replace, ctx, src, dest)
        == if removed.res.Err? then removed
           else Transfer(removed.st, Canonicalize(st.fs, ctx.ApplyPath(src)).value, ctx.ApplyPath(dest))
  {
  }

  /** The copy proper of a file to a free `d` whose parent is in place writes the file there. */
  lemma TransferFile(st: State, s: Path, d: Path)
    requires s in st.fs && st.fs[s].File? && d !in st.fs && CheckParent(st.fs, d).Ok?
    ensures Transfer(st, s, d) == Step(st.(fs := st.fs[d := File(st.fs[s].contents)]), Ok(()))
  {
    assert Canonicalize(st.fs, s) == Ok(s);
    assert Canonicalize(st.fs, d).Err?;
  }

  /**
   * A `copy` of a file onto an existing `dest` whose deletion is confirmed (with `replace`,
   * or by a "yes") succeeds when the source does not lie at or below `dest`: the old
   * entry is removed, `dest` then holds the source's contents, and nothing else changes
   * but what was below `dest`.
   */
  lemma CopyFileOverExisting(st: State, replace: bool, ctx: Context, src: Path, dest: Path)
    requires Valid(st.fs) && Canonicalize(st.fs, ctx.ApplyPath(src)).Ok?
    requires st.fs[Canonicalize(st.fs, ctx.ApplyPath(src)).value].File?
    requires Exists(st.fs, ctx.ApplyPath(dest)) && Confirm(st.input, replace).answer == Ok(true)
    requires !(ctx.ApplyPath(dest) <= Canonicalize(st.fs, ctx.ApplyPath(src)).value)
    ensures var s := Canonicalize(st.fs, ctx.ApplyPath(src)).value; var d := ctx.ApplyPath(dest);
      var r := Copy(st, false, replace, ctx, src, dest);
      && r.res.Ok?
      && r.st.input == Confirm(st.input, replace).rest && r.st.log == st.log
      && d in r.st.fs && r.st.fs[d] == File(st.fs[s].contents)
      && (forall q | q in st.fs && !(d <= q) :: q in r.st.fs && r.st.fs[q] == st.fs[q])
      && (forall q | q in r.st.fs :: q == d || (q in st.fs && r.st.fs[q] == st.fs[q]))
  {
    var s := Canonicalize(st.fs, ctx.ApplyPath(src)).value;
    var d := ctx.ApplyPath(dest);
    var st0 := st.(input := Confirm(st.input, replace).rest);
    RemoveExistingDest(st0, d);
    ConfirmedCopy(st, replace, ctx, src, dest);
    var removed := RemoveAll(st0, false, d);
    var f := removed.st.fs;
    assert s in f && f[s] == st.fs[s];
    if |d| > 1 {
      assert d[..|d| - 1] in st.fs && !(d <= d[..|d| - 1]);
    }
    TransferFile(removed.st, s, d);
  }

  /**
   * A `copy` of a directory onto an existing `dest` whose deletion is confirmed succeeds
   * when neither of source and `dest` lies below the other: the old entry is removed,
   * `dest` then is a directory holding the source's tree at the same relative places, and
   * every entry not at or below `dest` is kept.
   */
  lemma CopyTreeOverExisting(st: State, replace: bool, ctx: Context, src: Path, dest: Path)
    requires Valid(st.fs) && Canonicalize(st.fs, ctx.ApplyPath(src)).Ok?
    requires st.fs[Canonicalize(st.fs, ctx.ApplyPath(src)).value].Dir?
    requires Exists(st.fs, ctx.ApplyPath(dest)) && Confirm(st.input, replace).answer == Ok(true)
    requires !(ctx.ApplyPath(dest) <= Canonicalize(st.fs, ctx.ApplyPath(src)).value)
    requires !(Canonicalize(st.fs, ctx.ApplyPath(src)).value < ctx.ApplyPath(dest))
    ensures var s := Canonicalize(st.fs, ctx.ApplyPath(src)).value; var d := ctx.ApplyPath(dest);
      var r := Copy(st, false, replace, ctx, src, dest);
      && r.res.Ok?
      && r.st.input == Confirm(st.input, replace).rest && r.st.log == st.log
      && DirAt(r.st.fs, d)
      && (forall q | q in st.fs && s < q :: d + q[|s|..] in r.st.fs && r.st.fs[d + q[|s|..]] == st.fs[q])
      && (forall q | q in st.fs && !(d <= q) :: q in r.st.fs && r.st.fs[q] == st.fs[q])
      && (forall q | q in r.st.fs && !(d <= q) :: q in st.fs && r.st.fs[q] == st.fs[q])
      && (forall q | q in r.st.fs && d < q :: s + q[|d|..] in st.fs && r.st.fs[q] == st.fs[s + q[|d|..]])
  {
    var s := Canonicalize(st.fs, ctx.ApplyPath(src)).value;
    var d := ctx.ApplyPath(dest);
    var st0 := st.(input := Confirm(st.input, replace).rest);
    RemoveExistingDest(st0, d);
    ConfirmedCopy(st, replace, ctx, src, dest);
    var removed := RemoveAll(st0, false, d);
    var f := removed.st.fs;
    assert s in f && f[s] == Dir;
    assert Mkdir(f, s) == Err(StdIo(AlreadyExists));
    assert CreateDirAll(f, s) == Ok(f);
    assert Transfer(removed.st, s, d) == Lift(removed.st, CopyTree(f, s, d));
    AncestorsAreDirs(st.fs, d);
    assert CanCreateDirs(f, d) by {
      forall i | 1 <= i < |d| ensures d[..i] in f && f[d[..i]].Dir? {
        assert DirAt(st.fs, d[..i]) && !(d <= d[..i]);
      }
    }
    CopiedOverRemoval(st.fs, f, s, d);
    CopiedOverRemovalAddsNothingElse(st.fs, f, s, d);
  }

  /**
   * Copying the tree of `s` into the place just cleared of `d` succeeds: `d` receives that
   * tree, and every entry outside `d` is what it was before the removal.
   */
  lemma CopiedOverRemoval(fs: Fs, f: Fs, s: Path, d: Path)
    requires Valid(f) && d != [] && d !in f && s in f
    requires !(d <= s) && !(s < d)
    requires forall q | q in fs && !(d <= q) :: q in f && f[q] == fs[q]
    requires CanCreateDirs(f, d)
    ensures CopyTree(f, s, d).Ok?
    ensures var g := CopyTree(f, s, d).value;
      && DirAt(g, d)
      && (forall q | q in fs && s < q :: d + q[|s|..] in g && g[d + q[|s|..]] == fs[q])
      && (forall q | q in fs && !(d <= q) :: q in g && g[q] == fs[q])
  {
    CopyTreeSpec(f, s, d);
    forall q | q in fs && s < q ensures q in f && f[q] == fs[q] {
      PrefixesComparable(d, s, q);
    }
  }

  /**
   * After the destination was removed and the tree copied again, nothing appears outside
   * `d` that was not there before, and what lies below `d` comes from `s` alone.
   */
  lemma CopiedOverRemovalAddsNothingElse(fs: Fs, f: Fs, s: Path, d: Path)
    requires Valid(f) && d != [] && d !in f
    requires forall q | q in f :: q in fs && f[q] == fs[q]
    requires forall i | 1 <= i < |d| :: d[..i] in f
    requires CopyTree(f, s, d).Ok?
    ensures var g := CopyTree(f, s, d).value;
      && (forall q | q in g && !(d <= q) :: q in fs && g[q] == fs[q])
      && (forall q | q in g && d < q :: s + q[|d|..] in fs && g[q] == fs[s + q[|d|..]])
  {
    CopyTreeSpec(f, s, d);
    CopyTreeAddsOnlyGraft(f, s, d);
    var g := CopyTree(f, s, d).value;
    forall q | q in g && !(d <= q) ensures q in f {
      if q in Prefixes(d) {
        var i :| 1 <= i <= |d| && q == d[..i];
      }
    }
  }

  /** The copy proper keeps a valid tree valid. */
  lemma TransferKeepsValid(st: State, s: Path, d: Path)
    requires Valid(st.fs) && d != []
    ensures var r := Transfer(st, s, d); Valid(r.st.fs) && r.st.log == st.log && r.st.input == st.input
  {
    if IsFile(st.fs, s) {
      if CopyFile(st.fs, s, d).Ok? { CopyFileValid(st.fs, s, d); }
    } else if CreateDirAll(st.fs, s).Ok? {
      CreateDirAllMakesDirs(st.fs, s);
      var f := CreateDirAll(st.fs, s).value;
      if CopyTree(f, s, d).Ok? { CopyTreeValid(f, s, d); }
    }
  }

  /** `copy` keeps a valid tree valid. */
  lemma CopyKeepsValid(st: State, dry: bool, replace: bool, ctx: Context, src: Path, dest: Path)
    requires Valid(st.fs) && ctx.ApplyPath(dest) != []
    ensures var r := Copy(st, dry, replace, ctx, src, dest); Valid(r.st.fs) && r.st.log == st.log
  {
    var c := Canonicalize(st.fs, ctx.ApplyPath(src));
    var d := ctx.ApplyPath(dest);
    var r := Copy(st, dry, replace, ctx, src, dest);
    if c.Ok? {
      var s := c.value;
      var reply := Confirm(st.input, replace);
      var st0 := st.(input := reply.rest);
      if !Exists(st.fs, d) {
        if !dry {
          assert r == Transfer(st, s, d);
          TransferKeepsValid(st, s, d);
        }
      } else if reply.answer.Ok? && reply.answer.value {
        var removed := RemoveAll(st0, dry, d);
        RemoveAllRemovesOnlyTarget(st0, d);
        if removed.res.Ok? && !dry {
          assert r == Transfer(removed.st, s, d);
          TransferKeepsValid(removed.st, s, d);
        } else {
          assert r == removed;
        }
      } else {
        assert r.st.fs == st.fs;
      }
    }
  }
}
