/**
 * The helpers of src/manager.rs as they run: methods of the machine they act on, which
 * holds the filesystem, the standard-input lines not read yet and the commands spawned
 * so far. Each method does what the helper does, step by step, and is proved to end in
 * the state and with the result that `Steps` gives for it.
 */
module Helpers {
  import opened Errors
  import opened Paths
  import opened Placeholders
  import opened FileSystem
  import Steps

  class World {
    var fs: Fs
    var input: seq<string>
    var log: seq<Steps.Invocation>

    /** A machine over `fs` whose standard input will deliver `input`, before any command has run. */
    constructor (fs0: Fs, input0: seq<string>)
      ensures fs == fs0 && input == input0 && log == []
    {
      fs := fs0;
      input := input0;
      log := [];
    }

    function State(): Steps.State
      reads this
    {
      Steps.State(fs, input, log)
    }

    /** `ask_user`: reads lines until one is an answer; at the end of the input it fails. */
    method AskUser() returns (r: Result<bool>)
      modifies this
      ensures Steps.Reply(r, input) == Steps.Ask(old(input))
      ensures fs == old(fs) && log == old(log)
    {
      while input != []
        invariant Steps.Ask(input) == Steps.Ask(old(input))
        invariant fs == old(fs) && log == old(log)
        decreases |input|
      {
        var line := input[0];
        input := input[1..];
        match Steps.Answer(line)
        case Some(yes) => return Ok(yes);
        case None =>
      }
      return Err(StandardInput);
    }

    /** `remove_all` */
    method RemoveAll(dry: bool, p: Path) returns (r: Result<()>)
      modifies this
      ensures Steps.Step(State(), r) == Steps.RemoveAll(old(State()), dry, p)
    {
      if dry {
        return Ok(());
      }
      var removed := if IsFile(fs, p) || ReadLink(fs, p).Ok? then RemoveFile(fs, p) else RemoveDirAll(fs, p);
      if removed.Err? {
        return Err(removed.error);
      }
      fs := removed.value;
      return Ok(());
    }

    /** `create_directory` */
    method CreateDirectory(dry: bool, ctx: Context, path: Path) returns (r: Result<()>)
      modifies this
      ensures Steps.Step(State(), r) == Steps.CreateDirectory(old(State()), dry, ctx, path)
    {
      var p := ctx.ApplyPath(path);
      if dry {
        return Ok(());
      }
      if !IsDir(fs, p) {
        var made := CreateDirAll(fs, p);
        if made.Err? {
          return Err(made.error);
        }
        fs := made.value;
      }
      return Ok(());
    }

    /** `create_empty_file` */
    method CreateEmptyFile(dry: bool, p: Path) returns (r: Result<()>)
      modifies this
      ensures Steps.Step(State(), r) == Steps.CreateEmptyFile(old(State()), dry, p)
    {
      if dry {
        return Ok(());
      }
      var file := OpenWrite(fs, p, None);
      if file.Err? {
        return Err(file.error);
      }
      fs := file.value;
      return Ok(());
    }

    /** `create_file`; the substituted path must have a parent, or `unwrap` panics. */
    method CreateFile(dry: bool, replace: bool, ctx: Context, path: Path) returns (r: Result<()>)
      requires Parent(ctx.ApplyPath(path)).Some?
      modifies this
      ensures Steps.Step(State(), r) == Steps.CreateFile(old(State()), dry, replace, ctx, path)
    {
      var p := ctx.ApplyPath(path);
      var dirPath := Parent(p).value;
      if Exists(fs, p) {
        var yes := true;
        if !replace {
          var answer := AskUser();
          if answer.Err? {
            return Err(answer.error);
          }
          yes := answer.value;
        }
        if yes {
          r := RemoveAll(dry, p);
          if r.Err? {
            return;
          }
        }
      }
      r := CreateDirectory(dry, ctx, dirPath);
      if r.Err? {
        return;
      }
      r := CreateEmptyFile(dry, p);
    }

    /** `create_symlink` */
    method CreateSymlink(dry: bool, replace: bool, ctx: Context, src: Path, dest: Path) returns (r: Result<()>)
      modifies this
      ensures Steps.Step(State(), r) == Steps.CreateSymlink(old(State()), dry, replace, ctx, src, dest)
    {
      var canonical := Canonicalize(fs, ctx.ApplyPath(src));
      if canonical.Err? {
        return Err(canonical.error);
      }
      var s := canonical.value;
      var d := ctx.ApplyPath(dest);
      if dry {
        return Ok(());
      }
      var existing := ReadLink(fs, d);
      if existing.Ok? {
        var target := existing.value;
        if target == s {
          return Ok(());
        }
        var yes := true;
        if !replace {
          var answer := AskUser();
          if answer.Err? {
            return Err(answer.error);
          }
          yes := answer.value;
        }
        if yes {
          r := RemoveAll(dry, target);
          if r.Err? {
            return;
          }
        }
      }
      var linked := Symlink(fs, s, d);
      if linked.Err? {
        return Err(linked.error);
      }
      fs := linked.value;
      return Ok(());
    }

    /** `copy` */
    method Copy(dry: bool, replace: bool, ctx: Context, src: Path, dest: Path) returns (r: Result<()>)
      modifies this
      ensures Steps.Step(State(), r) == Steps.Copy(old(State()), dry, replace, ctx, src, dest)
    {
      var canonical := Canonicalize(fs, ctx.ApplyPath(src));
      if canonical.Err? {
        return Err(canonical.error);
      }
      var s := canonical.value;
      var d := ctx.ApplyPath(dest);
      if Exists(fs, d) {
        var yes := true;
        if !replace {
          var answer := AskUser();
          if answer.Err? {
            return Err(answer.error);
          }
          yes := answer.value;
        }
        if !yes {
          return Ok(());
        }
        r := RemoveAll(dry, d);
        if r.Err? {
          return;
        }
      }
      if dry {
        return Ok(());
      }
      if IsFile(fs, s) {
        var copied := CopyFile(fs, s, d);
        if copied.Err? {
          return Err(copied.error);
        }
        fs := copied.value;
      } else {
        var made := CreateDirAll(fs, s);
        if made.Err? {
          return Err(made.error);
        }
        fs := made.value;
        var copied := CopyTree(fs, s, d);
        if copied.Err? {
          return Err(copied.error);
        }
        fs := copied.value;
      }
      return Ok(());
    }

    /** `execute_command` */
    method ExecuteCommand(dry: bool, program: string, args: seq<string>) returns (r: Result<()>)
      modifies this
      ensures Steps.Step(State(), r) == Steps.ExecuteCommand(old(State()), dry, program, args)
    {
      if dry {
        return Ok(());
      }
      log := log + [Steps.Invocation(program, args)];
      return Ok(());
    }
  }
}
