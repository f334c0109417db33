/**
 * `Manager::apply` (src/manager.rs): the directories, then the empty files, the links,
 * the copies and last the commands, each handed to its helper in turn; the first
 * error ends the run, and what was done before it stays done.
 */
module Reconcile {
  import opened Errors
  import opened Paths
  import opened Placeholders
  import opened FileSystem
  import opened Steps
  import opened Helpers

  /** The fields of the configuration file (src/config.rs). */
  datatype Config = Config(
    commands: seq<seq<string>>,
    directories: seq<Path>,
    emptyFiles: seq<Path>,
    links: map<Path, Path>,
    copys: map<Path, Path>)

  /** `order` lists every key of `m` once: the order a `HashMap` happens to iterate in. */
  predicate Enumerates(order: seq<Path>, m: map<Path, Path>) {
    && (forall k | k in m :: k in order)
    && (forall i | 0 <= i < |order| :: order[i] in m)
    && (forall i, j | 0 <= i < j < |order| :: order[i] != order[j])
  }

  /** The items in order, each done by `perform`, stopping at the first that fails. */
  function Fold<T>(perform: (State, T) --> Step, st: State, items: seq<T>): Step
    requires forall s: State, i | 0 <= i < |items| :: perform.requires(s, items[i])
    decreases |items|
  {
    if items == [] then Step(st, Ok(()))
    else
      var first := perform(st, items[0]);
      if first.res.Err? then first
      else Fold(perform, first.st, items[1..])
  }

  /** What ran before, and then, unless it failed, the items. */
  function Then<T>(before: Step, perform: (State, T) --> Step, items: seq<T>): Step
    requires forall s: State, i | 0 <= i < |items| :: perform.requires(s, items[i])
  {
    if before.res.Err? then before else Fold(perform, before.st, items)
  }

  /** The first loop of `apply`: `create_directory` on each directory. */
  function DirectoryStep(dry: bool, ctx: Context): (State, Path) -> Step {
    (s: State, path: Path) => CreateDirectory(s, dry, ctx, path)
  }

  /** The second loop: `create_file` on each empty file, whose substituted path must have a parent. */
  function FileStep(dry: bool, replace: bool, ctx: Context): (State, Path) --> Step {
    (s: State, path: Path) requires Parent(ctx.ApplyPath(path)).Some? => CreateFile(s, dry, replace, ctx, path)
  }

  /** The third loop: `create_symlink` on each key of `links` and its value. */
  function LinkStep(dry: bool, replace: bool, ctx: Context, links: map<Path, Path>): (State, Path) --> Step {
    (s: State, src: Path) requires src in links => CreateSymlink(s, dry, replace, ctx, src, links[src])
  }

  /** The fourth loop: `copy` on each key of `copys` and its value. */
  function CopyStep(dry: bool, replace: bool, ctx: Context, copys: map<Path, Path>): (State, Path) --> Step {
    (s: State, src: Path) requires src in copys => Copy(s, dry, replace, ctx, src, copys[src])
  }

  /** The last loop: a command line without a program is `NoCommandProvided`, any other is executed. */
  function CommandStep(dry: bool): (State, seq<string>) -> Step {
    (s: State, cmd: seq<string>) =>
      if cmd == [] then Step(s, Err(NoCommandProvided)) else ExecuteCommand(s, dry, cmd[0], cmd[1..])
  }

  datatype Manager = Manager(
    directories: seq<Path>,
    emptyFiles: seq<Path>,
    links: map<Path, Path>,
    copys: map<Path, Path>,
    commands: seq<seq<string>>)
  {
    /** Every empty file has a parent once substituted, as `create_file` unwraps it. */
    predicate Runnable(ctx: Context) {
      forall f | f in emptyFiles :: Parent(ctx.ApplyPath(f)).Some?
    }

    /** The five loops of `apply`, when the maps iterate in the given orders. */
    function Run(st: State, dry: bool, replace: bool, ctx: Context, linkOrder: seq<Path>, copyOrder: seq<Path>): Step
      requires Runnable(ctx) && Enumerates(linkOrder, links) && Enumerates(copyOrder, copys)
    {
      var made := Fold(DirectoryStep(dry, ctx), st, directories);
      var filled := Then(made, FileStep(dry, replace, ctx), emptyFiles);
      var linked := Then(filled, LinkStep(dry, replace, ctx, links), linkOrder);
      var copied := Then(linked, CopyStep(dry, replace, ctx, copys), copyOrder);
      Then(copied, CommandStep(dry), commands)
    }

    /**
     * `apply`: the five loops in order; the first error of a loop is returned at once and
     * the later loops do not run. The end state and the result are those of `Run`.
     */
    method Apply(w: World, dry: bool, replace: bool, ctx: Context, linkOrder: seq<Path>, copyOrder: seq<Path>)
      returns (r: Result<()>)
      requires Runnable(ctx) && Enumerates(linkOrder, links) && Enumerates(copyOrder, copys)
      modifies w
      ensures Step(w.State(), r) == Run(old(w.State()), dry, replace, ctx, linkOrder, copyOrder)
    {
      r := ApplyDirectories(w, dry, ctx);
      if r.Err? {
        return;
      }
      r := ApplyEmptyFiles(w, dry, replace, ctx);
      if r.Err? {
        return;
      }
      r := ApplyLinks(w, dry, replace, ctx, linkOrder);
      if r.Err? {
        return;
      }
      r := ApplyCopies(w, dry, replace, ctx, copyOrder);
      if r.Err? {
        return;
      }
      r := ApplyCommands(w, dry);
    }

    /** The first loop of `apply`: `create_directory` on each directory, up to the first error. */
    method ApplyDirectories(w: World, dry: bool, ctx: Context) returns (r: Result<()>)
      modifies w
      ensures Step(w.State(), r) == Fold(DirectoryStep(dry, ctx), old(w.State()), directories)
    {
      ghost var start := w.State();
      ghost var perform := DirectoryStep(dry, ctx);
      for i := 0 to |directories|
        invariant Fold(perform, start, directories[..i]) == Step(w.State(), Ok(()))
      {
        ghost var before := w.State();
        r := w.CreateDirectory(dry, ctx, directories[i]);
        FoldNext(perform, start, directories, i, before, Step(w.State(), r));
        if r.Err? {
          return;
        }
      }
      assert directories[..|directories|] == directories;
      r := Ok(());
    }

    /** The second loop: `create_file` on each empty file, up to the first error. */
    method ApplyEmptyFiles(w: World, dry: bool, replace: bool, ctx: Context) returns (r: Result<()>)
      requires Runnable(ctx)
      modifies w
      ensures Step(w.State(), r) == Fold(FileStep(dry, replace, ctx), old(w.State()), emptyFiles)
    {
      ghost var start := w.State();
      ghost var perform := FileStep(dry, replace, ctx);
      for i := 0 to |emptyFiles|
        invariant Fold(perform, start, emptyFiles[..i]) == Step(w.State(), Ok(()))
      {
        ghost var before := w.State();
        r := w.CreateFile(dry, replace, ctx, emptyFiles[i]);
        FoldNext(perform, start, emptyFiles, i, before, Step(w.State(), r));
        if r.Err? {
          return;
        }
      }
      assert emptyFiles[..|emptyFiles|] == emptyFiles;
      r := Ok(());
    }

    /** The third loop: `create_symlink` on each key of `links` and its value, up to the first error. */
    method ApplyLinks(w: World, dry: bool, replace: bool, ctx: Context, linkOrder: seq<Path>) returns (r: Result<()>)
      requires Enumerates(linkOrder, links)
      modifies w
      ensures Step(w.State(), r) == Fold(LinkStep(dry, replace, ctx, links), old(w.State()), linkOrder)
    {
      ghost var start := w.State();
      ghost var perform := LinkStep(dry, replace, ctx, links);
      for i := 0 to |linkOrder|
        invariant Fold(perform, start, linkOrder[..i]) == Step(w.State(), Ok(()))
      {
        ghost var before := w.State();
        var src := linkOrder[i];
        r := w.CreateSymlink(dry, replace, ctx, src, links[src]);
        FoldNext(perform, start, linkOrder, i, before, Step(w.State(), r));
        if r.Err? {
          return;
        }
      }
      assert linkOrder[..|linkOrder|] == linkOrder;
      r := Ok(());
    }

    /** The fourth loop: `copy` on each key of `copys` and its value, up to the first error. */
    method ApplyCopies(w: World, dry: bool, replace: bool, ctx: Context, copyOrder: seq<Path>) returns (r: Result<()>)
      requires Enumerates(copyOrder, copys)
      modifies w
      ensures Step(w.State(), r) == Fold(CopyStep(dry, replace, ctx, copys), old(w.State()), copyOrder)
    {
      ghost var start := w.State();
      ghost var perform := CopyStep(dry, replace, ctx, copys);
      for i := 0 to |copyOrder|
        invariant Fold(perform, start, copyOrder[..i]) == Step(w.State(), Ok(()))
      {
        ghost var before := w.State();
        var src := copyOrder[i];
        r := w.Copy(dry, replace, ctx, src, copys[src]);
        FoldNext(perform, start, copyOrder, i, before, Step(w.State(), r));
        if r.Err? {
          return;
        }
      }
      assert copyOrder[..|copyOrder|] == copyOrder;
      r := Ok(());
    }

    /** The last loop: each command line split into program and arguments, up to the first error. */
    method ApplyCommands(w: World, dry: bool) returns (r: Result<()>)
      modifies w
      ensures Step(w.State(), r) == Fold(CommandStep(dry), old(w.State()), commands)
    {
      ghost var start := w.State();
      ghost var perform := CommandStep(dry);
      for i := 0 to |commands|
        invariant Fold(perform, start, commands[..i]) == Step(w.State(), Ok(()))
      {
        ghost var before := w.State();
        var cmd := commands[i];
        if cmd == [] {
          FoldNext(perform, start, commands, i, before, Step(before, Err(NoCommandProvided)));
          return Err(NoCommandProvided);
        }
        r := w.ExecuteCommand(dry, cmd[0], cmd[1..]);
        FoldNext(perform, start, commands, i, before, Step(w.State(), r));
      }
      assert commands[..|commands|] == commands;
      r := Ok(());
    }
  }

  /** `From<Config> for Manager`: the manager holds exactly what the configuration lists. */
  function FromConfig(config: Config): (m: Manager)
    ensures m.directories == config.directories && m.emptyFiles == config.emptyFiles
    ensures m.links == config.links && m.copys == config.copys && m.commands == config.commands
  {
    Manager(config.directories, config.emptyFiles, config.links, config.copys, config.commands)
  }

  /** `Manager::new`: the manager holds exactly the lists and maps it is given. */
  function New(directories: seq<Path>, emptyFiles: seq<Path>, links: map<Path, Path>, copys: map<Path, Path>, commands: seq<seq<string>>): (m: Manager)
    ensures m.directories == directories && m.emptyFiles == emptyFiles
    ensures m.links == links && m.copys == copys && m.commands == commands
  {
    Manager(directories, emptyFiles, links, copys, commands)
  }

  lemma FoldExtend<T>(perform: (State, T) --> Step, st: State, items: seq<T>, n: nat)
    requires forall s: State, i | 0 <= i < |items| :: perform.requires(s, items[i])
    requires n < |items|
    ensures var before := Fold(perform, st, items[..n]);
      Fold(perform, st, items[..n + 1])
        == if before.res.Err? then before else perform(before.st, items[n])
  {
    FoldStopsAtFirstError(perform, st, items[..n], [items[n]]);
    assert items[..n] + [items[n]] == items[..n + 1];
    var before := Fold(perform, st, items[..n]);
    if before.res.Ok? {
      var last := perform(before.st, items[n]);
      assert [items[n]][1..] == [];
      assert Fold(perform, before.st, [items[n]]) == if last.res.Err? then last else Fold(perform, last.st, []);
      if last.res.Ok? {
        var u: () := last.res.value;
        assert u == ();
        assert last.res == Ok(());
        assert last == Step(last.st, Ok(()));
      }
    }
  }

  /** One more item of a loop: it either extends the run so far or ends the whole run with its error. */
  lemma FoldNext<T>(perform: (State, T) --> Step, st: State, items: seq<T>, n: nat, before: State, after: Step)
    requires forall s: State, i | 0 <= i < |items| :: perform.requires(s, items[i])
    requires n < |items| && Fold(perform, st, items[..n]) == Step(before, Ok(()))
    requires after == perform(before, items[n])
    ensures after.res.Ok? ==> Fold(perform, st, items[..n + 1]) == Step(after.st, Ok(()))
    ensures after.res.Err? ==> Fold(perform, st, items) == after
  {
    FoldExtend(perform, st, items, n);
    if after.res.Err? {
      FoldAbort(perform, st, items, n + 1);
    } else {
      var u: () := after.res.value;
      assert u == ();
      assert after.res == Ok(());
    }
  }

  lemma FoldAbort<T>(perform: (State, T) --> Step, st: State, items: seq<T>, n: nat)
    requires forall s: State, i | 0 <= i < |items| :: perform.requires(s, items[i])
    requires n <= |items| && Fold(perform, st, items[..n]).res.Err?
    ensures Fold(perform, st, items) == Fold(perform, st, items[..n])
  {
    FoldStopsAtFirstError(perform, st, items[..n], items[n..]);
    assert items[..n] + items[n..] == items;
  }

  /**
   * Running `a` and then `b` is running `a + b`: when `a` fails, nothing of `b` runs and
   * the result is `a`'s error in the state `a` left.
   */
  lemma {:induction false} FoldStopsAtFirstError<T>(perform: (State, T) --> Step, st: State, a: seq<T>, b: seq<T>)
    requires forall s: State, i | 0 <= i < |a + b| :: perform.requires(s, (a + b)[i])
    ensures forall s: State, i | 0 <= i < |a| :: perform.requires(s, a[i])
    ensures forall s: State, i | 0 <= i < |b| :: perform.requires(s, b[i])
    ensures Fold(perform, st, a + b) == Then(Fold(perform, st, a), perform, b)
    decreases |a|
  {
    assert forall i | 0 <= i < |a| :: a[i] == (a + b)[i];
    assert forall i | 0 <= i < |b| :: b[i] == (a + b)[|a| + i];
    if a == [] {
      assert a + b == b;
    } else {
      assert (a + b)[1..] == a[1..] + b;
      var first := perform(st, a[0]);
      if first.res.Ok? {
        FoldStopsAtFirstError(perform, first.st, a[1..], b);
      }
    }
  }

  /** An invariant every item keeps holds after all of them, whichever stops the run. */
  lemma {:induction false} FoldKeeps<T>(perform: (State, T) --> Step, inv: State -> bool, st: State, items: seq<T>)
    requires forall s: State, i | 0 <= i < |items| :: perform.requires(s, items[i])
    requires forall s: State, i | 0 <= i < |items| && inv(s) :: inv(perform(s, items[i]).st)
    requires inv(st)
    ensures inv(Fold(perform, st, items).st)
    decreases |items|
  {
    if items != [] {
      var first := perform(st, items[0]);
      if first.res.Ok? {
        assert forall i | 0 <= i < |items| - 1 :: items[1..][i] == items[i + 1];
        FoldKeeps(perform, inv, first.st, items[1..]);
      }
    }
  }

  /** The same for `Then`: what ran before kept the invariant, and so do the items. */
  lemma ThenKeeps<T>(before: Step, perform: (State, T) --> Step, inv: State -> bool, items: seq<T>)
    requires forall s: State, i | 0 <= i < |items| :: perform.requires(s, items[i])
    requires forall s: State, i | 0 <= i < |items| && inv(s) :: inv(perform(s, items[i]).st)
    requires inv(before.st)
    ensures inv(Then(before, perform, items).st)
  {
    if before.res.Ok? {
      FoldKeeps(perform, inv, before.st, items);
    }
  }

  /**
   * A command line without a program ends the run with `NoCommandProvided`: the command
   * lines before it have run and none after it does.
   */
  lemma EmptyCommandAborts(st: State, dry: bool, commands: seq<seq<string>>, i: nat)
    requires i < |commands| && commands[i] == []
    ensures var before := Fold(CommandStep(dry), st, commands[..i]);
      Fold(CommandStep(dry), st, commands)
        == if before.res.Err? then before else Step(before.st, Err(NoCommandProvided))
  {
    FoldExtend(CommandStep(dry), st, commands, i);
    FoldAbort(CommandStep(dry), st, commands, i + 1);
  }

  /** A dry run changes no file and spawns nothing. */
  lemma DryRunChangesNoFiles(m: Manager, st: State, replace: bool, ctx: Context, linkOrder: seq<Path>, copyOrder: seq<Path>)
    requires m.Runnable(ctx) && Enumerates(linkOrder, m.links) && Enumerates(copyOrder, m.copys)
    ensures var r := m.Run(st, true, replace, ctx, linkOrder, copyOrder); r.st.fs == st.fs && r.st.log == st.log
  {
    var inv := (s: State) => s.fs == st.fs && s.log == st.log;
    forall s: State, path: Path | inv(s) ensures inv(CreateDirectory(s, true, ctx, path).st) {
      DryRunChangesNothing(s, replace, ctx, path, path, path, "", []);
    }
    FoldKeeps(DirectoryStep(true, ctx), inv, st, m.directories);
    var made := Fold(DirectoryStep(true, ctx), st, m.directories);
    forall s: State, i | 0 <= i < |m.emptyFiles| && inv(s) ensures inv(FileStep(true, replace, ctx)(s, m.emptyFiles[i]).st) {
      DryCreateFileChangesNoFiles(s, replace, ctx, m.emptyFiles[i]);
    }
    ThenKeeps(made, FileStep(true, replace, ctx), inv, m.emptyFiles);
    var filled := Then(made, FileStep(true, replace, ctx), m.emptyFiles);
    forall s: State, i | 0 <= i < |linkOrder| && inv(s) ensures inv(LinkStep(true, replace, ctx, m.links)(s, linkOrder[i]).st) {
      DryRunChangesNothing(s, replace, ctx, linkOrder[i], linkOrder[i], m.links[linkOrder[i]], "", []);
    }
    ThenKeeps(filled, LinkStep(true, replace, ctx, m.links), inv, linkOrder);
    var linked := Then(filled, LinkStep(true, replace, ctx, m.links), linkOrder);
    forall s: State, i | 0 <= i < |copyOrder| && inv(s) ensures inv(CopyStep(true, replace, ctx, m.copys)(s, copyOrder[i]).st) {
      DryCopyChangesNoFiles(s, replace, ctx, copyOrder[i], m.copys[copyOrder[i]]);
    }
    ThenKeeps(linked, CopyStep(true, replace, ctx, m.copys), inv, copyOrder);
    var copied := Then(linked, CopyStep(true, replace, ctx, m.copys), copyOrder);
    forall s: State, cmd: seq<string> | inv(s) ensures inv(CommandStep(true)(s, cmd).st) {
      if cmd != [] { DryRunChangesNothing(s, replace, ctx, [], [], [], cmd[0], cmd[1..]); }
    }
    ThenKeeps(copied, CommandStep(true), inv, m.commands);
  }

  /** With `replace` set, the run reads no standard input. */
  lemma ReplaceRunReadsNoInput(m: Manager, st: State, dry: bool, ctx: Context, linkOrder: seq<Path>, copyOrder: seq<Path>)
    requires m.Runnable(ctx) && Enumerates(linkOrder, m.links) && Enumerates(copyOrder, m.copys)
    ensures m.Run(st, dry, true, ctx, linkOrder, copyOrder).st.input == st.input
  {
    var inv := (s: State) => s.input == st.input;
    forall s: State, path: Path | inv(s) ensures inv(CreateDirectory(s, dry, ctx, path).st) {
    }
    FoldKeeps(DirectoryStep(dry, ctx), inv, st, m.directories);
    var made := Fold(DirectoryStep(dry, ctx), st, m.directories);
    forall s: State, i | 0 <= i < |m.emptyFiles| && inv(s) ensures inv(FileStep(dry, true, ctx)(s, m.emptyFiles[i]).st) {
      CreateFileWithReplaceReadsNothing(s, dry, ctx, m.emptyFiles[i]);
    }
    ThenKeeps(made, FileStep(dry, true, ctx), inv, m.emptyFiles);
    var filled := Then(made, FileStep(dry, true, ctx), m.emptyFiles);
    forall s: State, i | 0 <= i < |linkOrder| && inv(s) ensures inv(LinkStep(dry, true, ctx, m.links)(s, linkOrder[i]).st) {
      CreateSymlinkWithReplaceReadsNothing(s, dry, ctx, linkOrder[i], m.links[linkOrder[i]]);
    }
    ThenKeeps(filled, LinkStep(dry, true, ctx, m.links), inv, linkOrder);
    var linked := Then(filled, LinkStep(dry, true, ctx, m.links), linkOrder);
    forall s: State, i | 0 <= i < |copyOrder| && inv(s) ensures inv(CopyStep(dry, true, ctx, m.copys)(s, copyOrder[i]).st) {
      CopyWithReplaceReadsNothing(s, dry, ctx, copyOrder[i], m.copys[copyOrder[i]]);
    }
    ThenKeeps(linked, CopyStep(dry, true, ctx, m.copys), inv, copyOrder);
    var copied := Then(linked, CopyStep(dry, true, ctx, m.copys), copyOrder);
    ThenKeeps(copied, CommandStep(dry), inv, m.commands);
  }

  /** A run keeps a valid tree valid, provided no copy has the empty path as its destination. */
  lemma RunKeepsValid(m: Manager, st: State, dry: bool, replace: bool, ctx: Context, linkOrder: seq<Path>, copyOrder: seq<Path>)
    requires m.Runnable(ctx) && Enumerates(linkOrder, m.links) && Enumerates(copyOrder, m.copys)
    requires Valid(st.fs) && forall src | src in m.copys :: ctx.ApplyPath(m.copys[src]) != []
    ensures Valid(m.Run(st, dry, replace, ctx, linkOrder, copyOrder).st.fs)
  {
    var inv := (s: State) => Valid(s.fs);
    forall s: State, path: Path | inv(s) ensures inv(CreateDirectory(s, dry, ctx, path).st) {
      if !dry { CreateDirectoryMakesDirs(s, ctx, path); }
    }
    FoldKeeps(DirectoryStep(dry, ctx), inv, st, m.directories);
    var made := Fold(DirectoryStep(dry, ctx), st, m.directories);
    forall s: State, i | 0 <= i < |m.emptyFiles| && inv(s) ensures inv(FileStep(dry, replace, ctx)(s, m.emptyFiles[i]).st) {
      if dry { DryCreateFileChangesNoFiles(s, replace, ctx, m.emptyFiles[i]); }
      else { CreateFileMakesFile(s, replace, ctx, m.emptyFiles[i]); }
    }
    ThenKeeps(made, FileStep(dry, replace, ctx), inv, m.emptyFiles);
    LaterLoopsKeepValid(m, Then(made, FileStep(dry, replace, ctx), m.emptyFiles), dry, replace, ctx, linkOrder, copyOrder);
  }

  /** The links, copies and commands loops keep a valid tree valid. */
  lemma LaterLoopsKeepValid(m: Manager, filled: Step, dry: bool, replace: bool, ctx: Context, linkOrder: seq<Path>, copyOrder: seq<Path>)
    requires Enumerates(linkOrder, m.links) && Enumerates(copyOrder, m.copys)
    requires Valid(filled.st.fs) && forall src | src in m.copys :: ctx.ApplyPath(m.copys[src]) != []
    ensures var linked := Then(filled, LinkStep(dry, replace, ctx, m.links), linkOrder);
      var copied := Then(linked, CopyStep(dry, replace, ctx, m.copys), copyOrder);
      Valid(Then(copied, CommandStep(dry), m.commands).st.fs)
  {
    var inv := (s: State) => Valid(s.fs);
    forall s: State, i | 0 <= i < |linkOrder| && inv(s) ensures inv(LinkStep(dry, replace, ctx, m.links)(s, linkOrder[i]).st) {
      if dry { DryRunChangesNothing(s, replace, ctx, [], linkOrder[i], m.links[linkOrder[i]], "", []); }
      else { SymlinkMakesLink(s, replace, ctx, linkOrder[i], m.links[linkOrder[i]]); }
    }
    ThenKeeps(filled, LinkStep(dry, replace, ctx, m.links), inv, linkOrder);
    var linked := Then(filled, LinkStep(dry, replace, ctx, m.links), linkOrder);
    forall s: State, i | 0 <= i < |copyOrder| && inv(s) ensures inv(CopyStep(dry, replace, ctx, m.copys)(s, copyOrder[i]).st) {
      CopyKeepsValid(s, dry, replace, ctx, copyOrder[i], m.copys[copyOrder[i]]);
    }
    ThenKeeps(linked, CopyStep(dry, replace, ctx, m.copys), inv, copyOrder);
    var copied := Then(linked, CopyStep(dry, replace, ctx, m.copys), copyOrder);
    ThenKeeps(copied, CommandStep(dry), inv, m.commands);
  }

  /**
   * The item of a loop that fails ends the loop: the loop's result is that item's error,
   * in the state it left, and no item after it is performed.
   */
  lemma FailingItemEndsFold<T>(perform: (State, T) --> Step, st: State, items: seq<T>, n: nat)
    requires forall s: State, i | 0 <= i < |items| :: perform.requires(s, items[i])
    requires n < |items| && Fold(perform, st, items[..n]).res.Ok?
    requires perform(Fold(perform, st, items[..n]).st, items[n]).res.Err?
    ensures Fold(perform, st, items) == perform(Fold(perform, st, items[..n]).st, items[n])
  {
    var before := Fold(perform, st, items[..n]);
    var u: () := before.res.value;
    assert u == ();
    assert before == Step(before.st, Ok(()));
    FoldNext(perform, st, items, n, before.st, perform(before.st, items[n]));
  }

  /**
   * A directory that cannot be created ends the whole run: its error, in the state it
   * left, is the run's result, and no later directory, file, link, copy or command is
   * handled.
   */
  lemma FailingDirectoryEndsRun(m: Manager, st: State, dry: bool, replace: bool, ctx: Context, linkOrder: seq<Path>, copyOrder: seq<Path>, n: nat)
    requires m.Runnable(ctx) && Enumerates(linkOrder, m.links) && Enumerates(copyOrder, m.copys)
    requires n < |m.directories| && Fold(DirectoryStep(dry, ctx), st, m.directories[..n]).res.Ok?
    requires CreateDirectory(Fold(DirectoryStep(dry, ctx), st, m.directories[..n]).st, dry, ctx, m.directories[n]).res.Err?
    ensures m.Run(st, dry, replace, ctx, linkOrder, copyOrder)
      == CreateDirectory(Fold(DirectoryStep(dry, ctx), st, m.directories[..n]).st, dry, ctx, m.directories[n])
  {
    FailingItemEndsFold(DirectoryStep(dry, ctx), st, m.directories, n);
  }

  /**
   * A copy that fails, once the directories, files and links have all been handled, ends
   * the run: its error is the run's result and no later copy and no command runs.
   */
  lemma FailingCopyEndsRun(m: Manager, st: State, dry: bool, replace: bool, ctx: Context, linkOrder: seq<Path>, copyOrder: seq<Path>, n: nat)
    requires m.Runnable(ctx) && Enumerates(linkOrder, m.links) && Enumerates(copyOrder, m.copys)
    requires var made := Fold(DirectoryStep(dry, ctx), st, m.directories);
      var filled := Then(made, FileStep(dry, replace, ctx), m.emptyFiles);
      var linked := Then(filled, LinkStep(dry, replace, ctx, m.links), linkOrder);
      && linked.res.Ok? && n < |copyOrder|
      && Fold(CopyStep(dry, replace, ctx, m.copys), linked.st, copyOrder[..n]).res.Ok?
      && CopyStep(dry, replace, ctx, m.copys)(Fold(CopyStep(dry, replace, ctx, m.copys), linked.st, copyOrder[..n]).st, copyOrder[n]).res.Err?
    ensures var made := Fold(DirectoryStep(dry, ctx), st, m.directories);
      var filled := Then(made, FileStep(dry, replace, ctx), m.emptyFiles);
      var linked := Then(filled, LinkStep(dry, replace, ctx, m.links), linkOrder);
      var before := Fold(CopyStep(dry, replace, ctx, m.copys), linked.st, copyOrder[..n]);
      m.Run(st, dry, replace, ctx, linkOrder, copyOrder)
        == Copy(before.st, dry, replace, ctx, copyOrder[n], m.copys[copyOrder[n]])
  {
    var made := Fold(DirectoryStep(dry, ctx), st, m.directories);
    var filled := Then(made, FileStep(dry, replace, ctx), m.emptyFiles);
    var linked := Then(filled, LinkStep(dry, replace, ctx, m.links), linkOrder);
    FailingItemEndsFold(CopyStep(dry, replace, ctx, m.copys), linked.st, copyOrder, n);
  }
}
