/**
 * The invoking user's identity and the substitution of `$USER`, `$HOME` and a
 * leading `~` in declared strings and paths (src/context.rs).
 */
module Placeholders {
  import opened Errors
  import opened Strings
  import opened Paths

  datatype Context = Context(userName: string, homeDir: string) {

    /** `Context::apply`: `$USER` is replaced throughout, then `$HOME` throughout the result. */
    function Apply(s: string): string {
      Replace(Replace(s, "$USER", userName), "$HOME", homeDir)
    }

    /** The strings `apply_path` maps the components to, before they are collected. */
    function Rewritten(path: Path): (r: seq<string>)
      ensures |r| == |path|
    {
      seq(|path|, i requires 0 <= i < |path| =>
        if i == 0 && path[i] == "~" then Apply(Replace(path[i], "~", homeDir)) else Apply(path[i]))
    }

    /** `Context::apply_path`: the rewritten components pushed in order onto an empty path. */
    function ApplyPath(path: Path): Path {
      Collect(Rewritten(path))
    }
  }

  /** `Context::from_env`, with the process environment given as a map. */
  function FromEnv(env: map<string, string>): (r: Result<Context>)
    ensures r.Ok? <==> "USER" in env && "HOME" in env
    ensures "USER" !in env ==> r == Err(EnvUserNotFound)
    ensures "USER" in env && "HOME" !in env ==> r == Err(EnvHomeNotFound)
    ensures r.Ok? ==> r.value.userName == env["USER"] && r.value.homeDir == env["HOME"]
  {
    if "USER" !in env then Err(EnvUserNotFound)
    else if "HOME" !in env then Err(EnvHomeNotFound)
    else Ok(Context(env["USER"], env["HOME"]))
  }

  /**
   * `Apply` is two passes of split-and-join: the pieces between the `$USER` tokens are
   * joined with the user name, and the pieces of that between `$HOME` tokens with the
   * home directory. No piece contains its token, so every occurrence is substituted.
   */
  lemma ApplyReplacesEveryToken(ctx: Context, s: string)
    ensures var first := Join(Split(s, "$USER"), ctx.userName);
            ctx.Apply(s) == Join(Split(first, "$HOME"), ctx.homeDir)
            && (forall k :: 0 <= k < |Split(s, "$USER")| ==> !Contains(Split(s, "$USER")[k], "$USER"))
            && (forall k :: 0 <= k < |Split(first, "$HOME")| ==> !Contains(Split(first, "$HOME")[k], "$HOME"))
  {
    var first := Join(Split(s, "$USER"), ctx.userName);
    ReplaceIsJoinOfSplit(s, "$USER", ctx.userName);
    ReplaceIsJoinOfSplit(first, "$HOME", ctx.homeDir);
    SplitPiecesMatchFree(s, "$USER");
    SplitPiecesMatchFree(first, "$HOME");
  }

  /** Text with neither token comes back unchanged. */
  lemma ApplyLeavesPlainText(ctx: Context, s: string)
    requires !Contains(s, "$USER") && !Contains(s, "$HOME")
    ensures ctx.Apply(s) == s
  {
    ReplaceNoMatch(s, "$USER", ctx.userName);
    ReplaceNoMatch(s, "$HOME", ctx.homeDir);
  }

  lemma ReplaceWhole(pat: string, rep: string)
    requires pat != []
    ensures Replace(pat, pat, rep) == rep
  {
    assert pat[|pat|..] == [];
    assert rep + [] == rep;
  }

  /** `$USER` is substituted first, so a `$HOME` inside the user name is expanded as well. */
  lemma UserNameIsExpandedAgain(ctx: Context)
    ensures ctx.Apply("$USER") == Replace(ctx.userName, "$HOME", ctx.homeDir)
  {
    ReplaceWhole("$USER", ctx.userName);
  }

  /** `$HOME` is substituted last, so a `$USER` inside the home directory survives. */
  lemma HomeDirIsNotExpandedAgain(ctx: Context)
    ensures ctx.Apply("$HOME") == ctx.homeDir
  {
    MissingFirstChar("HOME", "$USER");
    ReplaceNoMatch("HOME", "$USER", ctx.userName);
    assert "$HOME"[1..] == "HOME";
    assert "$HOME"[..5][1] == 'H';
    assert Replace("$HOME", "$USER", ctx.userName) == "$HOME";
    ReplaceWhole("$HOME", ctx.homeDir);
  }

  /** Only a first component that is exactly `~` becomes the (substituted) home directory. */
  lemma TildeOnlyAsWholeFirstComponent(ctx: Context, path: Path)
    ensures forall i :: 0 <= i < |path| ==>
      ctx.Rewritten(path)[i] == if i == 0 && path[0] == "~" then ctx.Apply(ctx.homeDir) else ctx.Apply(path[i])
  {
    ReplaceWhole("~", ctx.homeDir);
  }

  /** When every rewritten component is a plain name, `ApplyPath` keeps them, in order. */
  lemma ApplyPathKeepsNames(ctx: Context, path: Path)
    requires forall i :: 0 <= i < |path| ==> ctx.Rewritten(path)[i] != "" && '/' !in ctx.Rewritten(path)[i]
    ensures ctx.ApplyPath(path) == ctx.Rewritten(path)
  {
    CollectFromNames([], ctx.Rewritten(path));
  }

  /** A component that expands to an absolute path (such as `$HOME`) discards the ones before it. */
  lemma ApplyPathRestartsAtAbsolute(ctx: Context, path: Path, i: nat)
    requires i < |path| && IsAbsolute(ctx.Rewritten(path)[i])
    ensures ctx.ApplyPath(path) == Collect(ctx.Rewritten(path)[i..])
  {
    var r := ctx.Rewritten(path);
    assert r == r[..i] + [r[i]] + r[i + 1..];
    CollectRestartsAtAbsolute(r[..i], r[i], r[i + 1..]);
    assert [r[i]] + r[i + 1..] == r[i..];
  }

  /** `ApplyPath` always yields a well-formed path. */
  lemma ApplyPathWellFormed(ctx: Context, path: Path)
    ensures WellFormed(ctx.ApplyPath(path))
  {
    CollectFromWellFormed([], ctx.Rewritten(path));
  }

  /** `$HOME/$USER<tail>` expands to the home directory, a slash, the user name and the tail. */
  lemma ApplyHomeUser(ctx: Context, tail: string)
    requires '$' !in ctx.userName && '$' !in tail
    ensures ctx.Apply("$HOME" + ("/" + ("$USER" + tail))) == ctx.homeDir + ("/" + (ctx.userName + tail))
  {
    var u, h := ctx.userName, ctx.homeDir;
    var x := "/" + ("$USER" + tail);
    var y := "/" + (u + tail);
    FirstPass(u, x, tail);
    SecondPass(h, y);
  }

  lemma FirstPass(u: string, x: string, tail: string)
    requires x == "/" + ("$USER" + tail) && '$' !in tail
    ensures Replace("$HOME" + x, "$USER", u) == "$HOME" + ("/" + (u + tail))
  {
    UserAfterSlash(u, tail);
    SkipHomeToken("$HOME" + x, x, u);
  }

  /** `/$USER<tail>` becomes `/<user><tail>` when the tail has no `$`. */
  lemma UserAfterSlash(u: string, tail: string)
    requires '$' !in tail
    ensures Replace("/" + ("$USER" + tail), "$USER", u) == "/" + (u + tail)
  {
    MissingFirstChar(tail, "$USER");
    ReplaceNoMatch(tail, "$USER", u);
    ReplaceSkipsPlain("/", "$USER" + tail, "$USER", u);
    ReplaceAtMatch("$USER", tail, u);
  }

  /** A leading `$HOME` is not a `$USER`, so the first pass keeps it. */
  lemma SkipHomeToken(s: string, x: string, u: string)
    requires s == "$HOME" + x
    ensures Replace(s, "$USER", u) == "$HOME" + Replace(x, "$USER", u)
  {
    var rx := Replace(x, "$USER", u);
    assert s[..5][1] == 'H';
    ReplaceAtMismatch(s, "$USER", u);
    assert s[1..] == "HOME" + x;
    ReplaceSkipsPlain("HOME", x, "$USER", u);
    assert ['$'] + ("HOME" + rx) == "$HOME" + rx;
  }

  lemma SecondPass(h: string, y: string)
    requires '$' !in y
    ensures Replace("$HOME" + y, "$HOME", h) == h + y
  {
    ReplaceAtMatch("$HOME", y, h);
    MissingFirstChar(y, "$HOME");
    ReplaceNoMatch(y, "$HOME", h);
  }

  /** With the user `alice` and the home `/home/alice`, `$HOME/$USER/.config` is `/home/alice/alice/.config`. */
  lemma ApplyExample(ctx: Context)
    requires ctx == Context("alice", "/home/alice")
    ensures ctx.Apply("$HOME/$USER/.config") == "/home/alice/alice/.config"
  {
    var tail := "/.config";
    var r := ctx.homeDir + ("/" + (ctx.userName + tail));
    assert r == "/home/alice/alice/.config";
    assert "$HOME/$USER/.config" == "$HOME" + ("/" + ("$USER" + tail));
    assert ctx.Apply("$HOME/$USER/.config") == r by {
      ApplyHomeUser(ctx, tail);
    }
  }

  /** The components of `/<a>/<b>` for two plain names. */
  lemma TwoNameComponents(a: string, b: string)
    requires a != "" && b != "" && '/' !in a && '/' !in b
    ensures Components("/" + (a + ("/" + b))) == ["/", a, b]
  {
    var sb := Split("/" + b, "/");
    assert sb == ["", b] by {
      SplitAtMatch("/", b);
      MissingFirstChar(b, "/");
      SplitNoMatch(b, "/");
    }
    assert Split(a + ("/" + b), "/") == [a, b] by {
      SplitSkipsPlain(a, "/" + b, "/");
      assert a + sb[0] == a;
      assert sb[1..] == [b];
    }
    var whole := "/" + (a + ("/" + b));
    assert Split(whole, "/") == ["", a, b] by {
      SplitAtMatch("/", a + ("/" + b));
    }
    assert IsAbsolute(whole);
    assert NonEmpty(["", a, b]) == [a, b] by {
      assert ["", a, b][1..] == [a, b];
      assert [a, b][1..] == [b];
      assert NonEmpty([b]) == [b] + NonEmpty([]);
    }
  }

  lemma HomeComponents()
    ensures Components("/home/alice") == ["/", "home", "alice"]
  {
    assert "/home/alice" == "/" + ("home" + ("/" + "alice"));
    TwoNameComponents("home", "alice");
  }

  /** `~/<name>` is the components of an absolute, token-free home directory followed by the name. */
  lemma ApplyPathTildeName(ctx: Context, b: string)
    requires IsAbsolute(ctx.homeDir) && '$' !in ctx.homeDir
    requires b != "" && '/' !in b && '$' !in b
    ensures ctx.ApplyPath(["~", b]) == Components(ctx.homeDir) + [b]
  {
    var h := ctx.homeDir;
    var rewritten := ctx.Rewritten(["~", b]);
    assert rewritten == [h, b] by {
      ReplaceWhole("~", h);
      MissingFirstChar(h, "$USER");
      MissingFirstChar(h, "$HOME");
      ApplyLeavesPlainText(ctx, h);
      MissingFirstChar(b, "$USER");
      MissingFirstChar(b, "$HOME");
      ApplyLeavesPlainText(ctx, b);
    }
    ComponentsOfName(b);
    assert rewritten[1..] == [b];
    assert [b][1..] == [];
    calc {
      ctx.ApplyPath(["~", b]);
      CollectFrom([], rewritten);
      CollectFrom(Push([], h), [b]);
      CollectFrom(Push(Components(h), b), []);
      Components(h) + [b];
    }
  }

  /** The example home directory is absolute and free of placeholders, and so is `bin`. */
  lemma ExampleNamesArePlain()
    ensures IsAbsolute("/home/alice") && '$' !in "/home/alice"
    ensures "bin" != "" && '/' !in "bin" && '$' !in "bin"
  {
    var h := "/home/alice";
    assert forall i | 0 <= i < |h| :: h[i] != '$';
  }

  /** With the same context, `~/bin` becomes `/home/alice/bin`. */
  lemma ApplyPathExample(ctx: Context)
    requires ctx == Context("alice", "/home/alice")
    ensures ctx.ApplyPath(["~", "bin"]) == ["/", "home", "alice", "bin"]
  {
    ExampleNamesArePlain();
    HomeComponents();
    ApplyPathTildeName(ctx, "bin");
  }

  /** A tilde that is not the whole first component stays literal: `~foo`, and `a/~`. */
  lemma TildeLiteralExample()
    ensures Context("alice", "/home/alice").Rewritten(["~foo"]) == ["~foo"]
    ensures Context("alice", "/home/alice").Rewritten(["a", "~"]) == ["a", "~"]
  {
    var ctx := Context("alice", "/home/alice");
    MissingFirstChar("~foo", "$USER");
    MissingFirstChar("~foo", "$HOME");
    ApplyLeavesPlainText(ctx, "~foo");
    MissingFirstChar("~", "$USER");
    MissingFirstChar("~", "$HOME");
    ApplyLeavesPlainText(ctx, "~");
    MissingFirstChar("a", "$USER");
    MissingFirstChar("a", "$HOME");
    ApplyLeavesPlainText(ctx, "a");
  }
}
