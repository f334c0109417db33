/**
 * The filesystem the tool reconciles, as a finite map from paths to entries, and the
 * system calls it uses (`canonicalize`, `read_link`, `create_dir_all`, opening a file
 * for writing, `symlink`, `remove_file`, `remove_dir_all`, `fs::copy` and the
 * directory copy) as functions from one map to the next.
 */
module FileSystem {
  import opened Errors
  import opened Paths

  newtype byte = x: int | 0 <= x < 256

  datatype Node = Dir | File(contents: seq<byte>) | Link(target: Path)

  type Fs = map<Path, Node>

  predicate DirAt(fs: Fs, p: Path) {
    p in fs && fs[p].Dir?
  }

  /**
   * The tree invariant: the empty path names no entry, and the parent of every entry
   * that has one inside the map is a directory. (Top-level names and the root hang
   * off the working directory and the root, which the map does not store.)
   */
  ghost predicate Valid(fs: Fs) {
    forall p | p in fs :: p != [] && (|p| > 1 ==> DirAt(fs, p[..|p| - 1]))
  }

  /** The non-empty prefixes of a path: its ancestors and the path itself. */
  function Prefixes(p: Path): set<Path> {
    set i | 1 <= i <= |p| :: p[..i]
  }

  /**
   * How many symbolic links one lookup follows before it gives up with ELOOP. Linux
   * stops at 40 (MAXSYMLINKS); the value is left open here, so what is proved holds
   * for any limit.
   */
  const MaxSymlinkHops: nat

  /** The entry a path leads to once symbolic links are followed, at most `hops` of them. */
  function Follow(fs: Fs, p: Path, hops: nat): (r: Result<Path>)
    ensures r.Ok? ==> r.value in fs && !fs[r.value].Link?
    ensures p !in fs ==> r == Err(StdIo(NotFound))
    ensures p in fs && !fs[p].Link? ==> r == Ok(p)
    ensures r.Err? ==> r.error == StdIo(NotFound) || r.error == StdIo(TooManyLinks)
    decreases hops
  {
    if p !in fs then Err(StdIo(NotFound))
    else match fs[p]
      case Link(t) => if hops == 0 then Err(StdIo(TooManyLinks)) else Follow(fs, t, hops - 1)
      case _ => Ok(p)
  }

  /** `Path::canonicalize`: fails when the path, or a link on the way, leads nowhere. */
  function Canonicalize(fs: Fs, p: Path): Result<Path> {
    Follow(fs, p, MaxSymlinkHops)
  }

  /** `Path::exists`, which follows symbolic links: a dangling link does not exist. */
  predicate Exists(fs: Fs, p: Path) {
    Canonicalize(fs, p).Ok?
  }

  /** `Path::is_dir`, following symbolic links. */
  predicate IsDir(fs: Fs, p: Path) {
    var r := Canonicalize(fs, p);
    r.Ok? && fs[r.value].Dir?
  }

  /** `Path::is_file`, following symbolic links. */
  predicate IsFile(fs: Fs, p: Path) {
    var r := Canonicalize(fs, p);
    r.Ok? && fs[r.value].File?
  }

  /** `Path::read_link`: the stored target of a symbolic link. */
  function ReadLink(fs: Fs, p: Path): (r: Result<Path>)
    ensures r.Ok? <==> p in fs && fs[p].Link?
  {
    if p !in fs then Err(StdIo(NotFound))
    else if fs[p].Link? then Ok(fs[p].target)
    else Err(StdIo(InvalidInput))
  }

  /** The parent a new entry at `p` needs: a directory, or none inside the map. */
  function CheckParent(fs: Fs, p: Path): (r: Result<()>)
    ensures r.Ok? <==> p != [] && (|p| > 1 ==> DirAt(fs, p[..|p| - 1]))
  {
    if p == [] then Err(StdIo(NotFound))
    else if |p| == 1 then Ok(())
    else if p[..|p| - 1] !in fs then Err(StdIo(NotFound))
    else if fs[p[..|p| - 1]].Dir? then Ok(())
    else Err(StdIo(NotADirectory))
  }

  /** `mkdir`: one new directory under an existing one. */
  function Mkdir(fs: Fs, p: Path): Result<Fs> {
    if p in fs then Err(StdIo(AlreadyExists))
    else match CheckParent(fs, p)
      case Err(e) => Err(e)
      case Ok(_) => Ok(fs[p := Dir])
  }

  /**
   * `fs::create_dir_all`: try `mkdir`; if the parent is missing, create it first and try
   * again; a failure is forgiven when the path is a directory by then.
   */
  function CreateDirAll(fs: Fs, p: Path): (r: Result<Fs>)
    ensures r.Err? ==> r.error.StdIo?
    decreases |p|
  {
    if p == [] then Ok(fs)
    else match Mkdir(fs, p)
      case Ok(f) => Ok(f)
      case Err(e) =>
        if e == StdIo(NotFound) && |p| > 1 then MkdirAfterParent(CreateDirAll(fs, p[..|p| - 1]), p)
        else if IsDir(fs, p) then Ok(fs)
        else Err(e)
  }

  /** The second `mkdir` of `create_dir_all`, once the parent has been created (or not). */
  function MkdirAfterParent(parent: Result<Fs>, p: Path): (r: Result<Fs>)
    ensures parent.Err? && parent.error.StdIo? ==> r.Err? && r.error.StdIo?
    ensures r.Err? && !parent.Err? ==> r.error.StdIo?
  {
    match parent
    case Err(e1) => Err(e1)
    case Ok(f1) =>
      match Mkdir(f1, p)
      case Ok(f2) => Ok(f2)
      case Err(e2) => if IsDir(f1, p) then Ok(f1) else Err(e2)
  }

  /**
   * Opening `p` for writing with creation. With `None` existing contents are kept
   * (`OpenOptions::new().write(true).create(true)`); with `Some(data)` the file is
   * truncated and `data` written (`fs::copy`). An existing target that is not a file,
   * or a link that leads nowhere, is an error.
   */
  function OpenWrite(fs: Fs, p: Path, data: Option<seq<byte>>): Result<Fs> {
    match Canonicalize(fs, p)
    case Ok(q) =>
      if !fs[q].File? then Err(StdIo(IsADirectory))
      else if data.Some? then Ok(fs[q := File(data.value)])
      else Ok(fs)
    case Err(e) =>
      if p in fs then Err(e)
      else match CheckParent(fs, p)
        case Err(e1) => Err(e1)
        case Ok(_) => Ok(fs[p := File(if data.Some? then data.value else [])])
  }

  /** `os::unix::fs::symlink(target, p)`: a new link; anything already at `p` is an error. */
  function Symlink(fs: Fs, target: Path, p: Path): Result<Fs> {
    if p in fs then Err(StdIo(AlreadyExists))
    else match CheckParent(fs, p)
      case Err(e) => Err(e)
      case Ok(_) => Ok(fs[p := Link(target)])
  }

  /** `fs::remove_file`: unlinks a file or a symbolic link itself, never a directory. */
  function RemoveFile(fs: Fs, p: Path): Result<Fs> {
    if p !in fs then Err(StdIo(NotFound))
    else if fs[p].Dir? then Err(StdIo(IsADirectory))
    else Ok(fs - {p})
  }

  /** The map without `p` and everything below it. */
  function Prune(fs: Fs, p: Path): Fs {
    map q | q in fs && !(p <= q) :: fs[q]
  }

  /** `fs::remove_dir_all`: a directory with its whole subtree; a symbolic link only itself. */
  function RemoveDirAll(fs: Fs, p: Path): Result<Fs> {
    if p !in fs then Err(StdIo(NotFound))
    else match fs[p]
      case Link(_) => Ok(fs - {p})
      case File(_) => Err(StdIo(NotADirectory))
      case Dir => Ok(Prune(fs, p))
  }

  /** `fs::copy`: the contents of the file `src` leads to, written over or into `dest`. */
  function CopyFile(fs: Fs, src: Path, dest: Path): Result<Fs> {
    match Canonicalize(fs, src)
    case Err(e) => Err(e)
    case Ok(q) => if fs[q].File? then OpenWrite(fs, dest, Some(fs[q].contents)) else Err(StdIo(InvalidInput))
  }

  /** The places below `dest` that the entries strictly below `src` move to. */
  function GraftKeys(fs: Fs, src: Path, dest: Path): (r: set<Path>)
    ensures forall k | k in r :: dest <= k && src + k[|dest|..] in fs && src < src + k[|dest|..]
  {
    var r := set q | q in fs && src < q :: dest + q[|src|..];
    assert forall k | k in r :: dest <= k && src + k[|dest|..] in fs && src < src + k[|dest|..] by {
      forall k | k in r ensures dest <= k && src + k[|dest|..] in fs && src < src + k[|dest|..] {
        var q :| q in fs && src < q && k == dest + q[|src|..];
        assert k[|dest|..] == q[|src|..];
        assert src + q[|src|..] == q;
      }
    }
    r
  }

  /** Every entry strictly below `src`, moved to the same place below `dest`. */
  function Graft(fs: Fs, src: Path, dest: Path): Fs {
    map k | k in GraftKeys(fs, src, dest) :: fs[src + k[|dest|..]]
  }

  /**
   * The directory copy of `fs_extra::dir::copy` with `copy_inside`, as one step: `dest`
   * must not exist; it is created with its ancestors and receives the tree below `src`.
   */
  function CopyTree(fs: Fs, src: Path, dest: Path): Result<Fs> {
    if dest in fs then Err(FsExtra(AlreadyExists))
    else match CreateDirAll(fs, dest)
      case Err(e) => Err(FsExtra(e.kind))
      case Ok(f1) => Ok(f1 + Graft(fs, src, dest))
  }

  /** `create_dir_all` can succeed: no ancestor is anything but a directory, and the path, if present, leads to one. */
  ghost predicate CanCreateDirs(fs: Fs, p: Path) {
    && (forall i | 1 <= i < |p| :: p[..i] in fs ==> fs[p[..i]].Dir?)
    && (p in fs ==> IsDir(fs, p))
  }

  /** `fs` with every missing prefix of `p` added as a directory. */
  function WithDirs(fs: Fs, p: Path): Fs {
    fs + map a | a in Prefixes(p) && a !in fs :: Dir
  }

  /** `WithDirs` adds directories only, and only at prefixes of the path. */
  lemma WithDirsAdds(fs: Fs, p: Path)
    ensures forall q | q in WithDirs(fs, p) && q !in fs :: q in Prefixes(p) && WithDirs(fs, p)[q] == Dir
    ensures forall q | q in fs :: q in WithDirs(fs, p) && WithDirs(fs, p)[q] == fs[q]
  {
  }

  /** Below a valid tree's entry every ancestor is a directory. */
  lemma {:induction false} AncestorsAreDirs(fs: Fs, q: Path)
    requires Valid(fs) && q in fs
    ensures forall i | 1 <= i < |q| :: DirAt(fs, q[..i])
    decreases |q|
  {
    if |q| > 1 {
      var parent := q[..|q| - 1];
      AncestorsAreDirs(fs, parent);
      forall i | 1 <= i < |q| ensures DirAt(fs, q[..i]) {
        if i < |q| - 1 { assert q[..i] == parent[..i]; }
      }
    }
  }

  lemma PrefixOfEntry(fs: Fs, q: Path, i: nat)
    requires Valid(fs) && q in fs && 1 <= i <= |q|
    ensures q[..i] in fs
  {
    AncestorsAreDirs(fs, q);
    if i == |q| { assert q[..i] == q; } else { assert DirAt(fs, q[..i]); }
  }

  lemma AbovePresent(fs: Fs, d: Path, q: Path)
    requires Valid(fs) && q in fs && d != [] && d < q
    ensures d in fs
  {
    PrefixOfEntry(fs, q, |d|);
    assert d == q[..|d|];
  }

  /** Nothing lies below a path that is absent from a valid tree. */
  lemma AbsentHasNoDescendants(fs: Fs, d: Path)
    requires Valid(fs) && d != [] && d !in fs
    ensures forall q | q in fs :: !(d < q)
  {
    forall q | q in fs ensures !(d < q) {
      if d < q { AbovePresent(fs, d, q); }
    }
  }

  lemma PrefixesSnoc(p: Path)
    requires |p| > 1
    ensures Prefixes(p) == Prefixes(p[..|p| - 1]) + {p}
  {
    var q := p[..|p| - 1];
    forall a | a in Prefixes(p) ensures a in Prefixes(q) + {p} {
      var i :| 1 <= i <= |p| && a == p[..i];
      if i < |p| { assert a == q[..i]; } else { assert a == p; }
    }
    forall a | a in Prefixes(q) ensures a in Prefixes(p) {
      var i :| 1 <= i <= |q| && a == q[..i];
      assert a == p[..i];
    }
    assert p[..|p|] == p;
  }

  lemma PrefixesSingleton(p: Path)
    requires |p| == 1
    ensures Prefixes(p) == {p}
  {
    forall a | a in Prefixes(p) ensures a == p {
      var i :| 1 <= i <= |p| && a == p[..i];
    }
    assert p[..1] == p;
  }

  /** Every prefix of an entry of a valid tree is an entry. */
  lemma PrefixesPresent(fs: Fs, p: Path)
    requires Valid(fs) && p in fs
    ensures WithDirs(fs, p) == fs
  {
    AncestorsAreDirs(fs, p);
    forall a | a in Prefixes(p) ensures a in fs {
      var i :| 1 <= i <= |p| && a == p[..i];
      if i < |p| { assert DirAt(fs, p[..i]); } else { assert a == p; }
    }
  }

  lemma CreateDirAllPresent(fs: Fs, p: Path)
    requires Valid(fs) && p in fs
    ensures CreateDirAll(fs, p).Ok? <==> CanCreateDirs(fs, p)
    ensures CreateDirAll(fs, p).Ok? ==> CreateDirAll(fs, p).value == WithDirs(fs, p)
  {
    AncestorsAreDirs(fs, p);
    PrefixesPresent(fs, p);
  }

  lemma CreateDirAllTop(fs: Fs, p: Path)
    requires Valid(fs) && p !in fs && |p| == 1
    ensures CreateDirAll(fs, p).Ok? && CanCreateDirs(fs, p)
    ensures CreateDirAll(fs, p).value == WithDirs(fs, p)
  {
    PrefixesSingleton(p);
    assert WithDirs(fs, p) == fs[p := Dir];
  }

  lemma CreateDirAllUnderPresent(fs: Fs, p: Path)
    requires Valid(fs) && p !in fs && |p| > 1 && p[..|p| - 1] in fs
    ensures CreateDirAll(fs, p).Ok? <==> CanCreateDirs(fs, p)
    ensures CreateDirAll(fs, p).Ok? ==> CreateDirAll(fs, p).value == WithDirs(fs, p)
  {
    var q := p[..|p| - 1];
    if fs[q].Dir? {
      AncestorsAreDirs(fs, q);
      assert forall i | 1 <= i < |p| :: p[..i] in fs && fs[p[..i]].Dir? by {
        forall i | 1 <= i < |p| ensures p[..i] in fs && fs[p[..i]].Dir? {
          if i < |q| { assert p[..i] == q[..i]; }
        }
      }
      PrefixesSnoc(p);
      PrefixesPresent(fs, q);
      assert WithDirs(fs, p) == fs[p := Dir];
    } else {
      assert !CanCreateDirs(fs, p);
    }
  }

  lemma CanCreateDirsUnderAbsent(fs: Fs, p: Path)
    requires p !in fs && |p| > 1 && p[..|p| - 1] !in fs
    ensures CanCreateDirs(fs, p) <==> CanCreateDirs(fs, p[..|p| - 1])
  {
    var q := p[..|p| - 1];
    assert forall i | 1 <= i < |q| :: q[..i] == p[..i];
  }

  /** Adding the prefixes of a path is adding those of its parent and then the path. */
  lemma WithDirsSnoc(fs: Fs, p: Path)
    requires p !in fs && |p| > 1
    ensures p !in WithDirs(fs, p[..|p| - 1])
    ensures DirAt(WithDirs(fs, p[..|p| - 1]), p[..|p| - 1]) || p[..|p| - 1] in fs
    ensures WithDirs(fs, p) == WithDirs(fs, p[..|p| - 1])[p := Dir]
  {
    var q := p[..|p| - 1];
    assert q in Prefixes(q) by { assert q == q[..|q|]; }
    assert forall a | a in Prefixes(q) :: |a| <= |q|;
    PrefixesSnoc(p);
  }

  lemma CreateDirAllUnderAbsent(fs: Fs, p: Path)
    requires Valid(fs) && p !in fs && |p| > 1 && p[..|p| - 1] !in fs
    requires CreateDirAll(fs, p[..|p| - 1]).Ok? <==> CanCreateDirs(fs, p[..|p| - 1])
    requires CreateDirAll(fs, p[..|p| - 1]).Ok? ==> CreateDirAll(fs, p[..|p| - 1]).value == WithDirs(fs, p[..|p| - 1])
    ensures CreateDirAll(fs, p).Ok? <==> CanCreateDirs(fs, p)
    ensures CreateDirAll(fs, p).Ok? ==> CreateDirAll(fs, p).value == WithDirs(fs, p)
  {
    var q := p[..|p| - 1];
    CanCreateDirsUnderAbsent(fs, p);
    assert CheckParent(fs, p) == Err(StdIo(NotFound));
    assert Mkdir(fs, p) == Err(StdIo(NotFound));
    assert CreateDirAll(fs, p) == MkdirAfterParent(CreateDirAll(fs, q), p);
    if CanCreateDirs(fs, q) {
      var f1 := WithDirs(fs, q);
      WithDirsSnoc(fs, p);
      assert CheckParent(f1, p) == Ok(());
      assert Mkdir(f1, p) == Ok(f1[p := Dir]);
    }
  }

  lemma WithDirsValid(fs: Fs, p: Path)
    requires Valid(fs) && CanCreateDirs(fs, p)
    ensures Valid(WithDirs(fs, p))
  {
    var w := WithDirs(fs, p);
    forall a | a in w ensures a != [] && (|a| > 1 ==> DirAt(w, a[..|a| - 1])) {
      if a !in fs {
        var i :| 1 <= i <= |p| && a == p[..i];
        if |a| > 1 {
          assert a[..|a| - 1] == p[..i - 1];
          assert p[..i - 1] in Prefixes(p);
        }
      }
    }
  }

  /**
   * `create_dir_all` succeeds exactly when no ancestor is in the way, and then it adds
   * the missing prefixes of the path as directories and changes nothing else.
   */
  lemma {:induction false} CreateDirAllSpec(fs: Fs, p: Path)
    requires Valid(fs)
    ensures CreateDirAll(fs, p).Ok? <==> CanCreateDirs(fs, p)
    ensures CreateDirAll(fs, p).Ok? ==> CreateDirAll(fs, p).value == WithDirs(fs, p)
    decreases |p|
  {
    if p == [] {
      assert WithDirs(fs, p) == fs;
    } else if p in fs {
      CreateDirAllPresent(fs, p);
    } else if |p| == 1 {
      CreateDirAllTop(fs, p);
    } else if p[..|p| - 1] in fs {
      CreateDirAllUnderPresent(fs, p);
    } else {
      CreateDirAllSpec(fs, p[..|p| - 1]);
      CreateDirAllUnderAbsent(fs, p);
    }
  }

  /** After a successful `create_dir_all` the path leads to a directory and every ancestor is one. */
  lemma CreateDirAllMakesDirs(fs: Fs, p: Path)
    requires Valid(fs) && CreateDirAll(fs, p).Ok?
    ensures var f := CreateDirAll(fs, p).value;
      Valid(f) && (p != [] ==> IsDir(f, p)) && (forall i | 1 <= i < |p| :: DirAt(f, p[..i]))
      && (forall q | q in fs :: q in f && f[q] == fs[q])
  {
    CreateDirAllSpec(fs, p);
    WithDirsValid(fs, p);
    var f := WithDirs(fs, p);
    forall i | 1 <= i < |p| ensures DirAt(f, p[..i]) {
      assert p[..i] in Prefixes(p);
    }
    if p != [] {
      assert p == p[..|p|] && p in Prefixes(p);
      if p !in fs { assert f[p] == Dir; }
      else {
        assert f[p] == fs[p];
        if fs[p].Link? {
          // the link leads to a directory in `fs`, and `f` keeps every entry of `fs`
          FollowKept(fs, f, p, MaxSymlinkHops);
        }
      }
    }
  }

  /** Adding entries keeps what a path leads to, as long as the lookup did not end at a missing one. */
  lemma {:induction false} FollowKept(fs: Fs, f: Fs, p: Path, hops: nat)
    requires forall q | q in fs :: q in f && f[q] == fs[q]
    requires Follow(fs, p, hops).Ok?
    ensures Follow(f, p, hops) == Follow(fs, p, hops)
    decreases hops
  {
    if fs[p].Link? { FollowKept(fs, f, fs[p].target, hops - 1); }
  }

  lemma OpenWriteValid(fs: Fs, p: Path, data: Option<seq<byte>>)
    requires Valid(fs) && OpenWrite(fs, p, data).Ok?
    ensures Valid(OpenWrite(fs, p, data).value)
  {
  }

  lemma SymlinkValid(fs: Fs, target: Path, p: Path)
    requires Valid(fs) && Symlink(fs, target, p).Ok?
    ensures Valid(Symlink(fs, target, p).value)
  {
  }

  lemma RemoveFileValid(fs: Fs, p: Path)
    requires Valid(fs) && RemoveFile(fs, p).Ok?
    ensures Valid(RemoveFile(fs, p).value)
  {
  }

  lemma RemoveDirAllValid(fs: Fs, p: Path)
    requires Valid(fs) && RemoveDirAll(fs, p).Ok?
    ensures Valid(RemoveDirAll(fs, p).value)
  {
    if fs[p].Dir? {
      var f := Prune(fs, p);
      forall q | q in f && |q| > 1 ensures DirAt(f, q[..|q| - 1]) {
        assert p <= q[..|q| - 1] ==> p <= q;
      }
    }
  }

  lemma CopyFileValid(fs: Fs, src: Path, dest: Path)
    requires Valid(fs) && CopyFile(fs, src, dest).Ok?
    ensures Valid(CopyFile(fs, src, dest).value)
  {
    var q := Canonicalize(fs, src).value;
    OpenWriteValid(fs, dest, Some(fs[q].contents));
  }

  /** The parent of a grafted entry is `dest` or a grafted directory. */
  lemma DropLast(src: Path, dest: Path, q: Path)
    requires src < q && |q| > |src| + 1
    ensures (dest + q[|src|..])[..|dest + q[|src|..]| - 1] == dest + q[..|q| - 1][|src|..]
  {
  }

  /** Where an entry below `src` lands in the graft. */
  lemma GraftAt(fs: Fs, src: Path, dest: Path, q: Path)
    requires q in fs && src < q
    ensures dest + q[|src|..] in Graft(fs, src, dest)
    ensures Graft(fs, src, dest)[dest + q[|src|..]] == fs[q]
  {
    assert dest + q[|src|..] in GraftKeys(fs, src, dest);
    assert (dest + q[|src|..])[|dest|..] == q[|src|..];
    assert src + q[|src|..] == q;
  }

  /** The parent of a grafted entry is `dest` or a grafted directory. */
  lemma GraftParent(fs: Fs, src: Path, dest: Path, k: Path)
    requires Valid(fs) && k in GraftKeys(fs, src, dest)
    ensures dest < k
    ensures k[..|k| - 1] == dest || (k[..|k| - 1] in GraftKeys(fs, src, dest) && fs[src + k[..|k| - 1][|dest|..]].Dir?)
  {
    var q := src + k[|dest|..];
    assert k == dest + q[|src|..];
    if |q| == |src| + 1 {
      assert k[..|k| - 1] == dest;
    } else {
      var q' := q[..|q| - 1];
      assert src < q';
      assert DirAt(fs, q');
      DropLast(src, dest, q);
      assert k[..|k| - 1] == dest + q'[|src|..];
      assert k[..|k| - 1] in GraftKeys(fs, src, dest);
      assert k[..|k| - 1][|dest|..] == q'[|src|..];
      assert src + q'[|src|..] == q';
    }
  }

  /** Nothing below a created `dest` exists yet. */
  lemma NothingBelowNewDir(fs: Fs, dest: Path)
    requires Valid(fs) && dest != [] && dest !in fs && CreateDirAll(fs, dest).Ok?
    ensures forall k | k in CreateDirAll(fs, dest).value :: !(dest < k)
  {
    CreateDirAllSpec(fs, dest);
    AbsentHasNoDescendants(fs, dest);
    forall k | k in WithDirs(fs, dest) && k !in fs ensures !(dest < k) {
      var i :| 1 <= i <= |dest| && k == dest[..i];
    }
  }

  lemma CopyTreeValid(fs: Fs, src: Path, dest: Path)
    requires Valid(fs) && dest != [] && CopyTree(fs, src, dest).Ok?
    ensures Valid(CopyTree(fs, src, dest).value)
  {
    var f1 := CreateDirAll(fs, dest).value;
    CreateDirAllMakesDirs(fs, dest);
    NothingBelowNewDir(fs, dest);
    var g := Graft(fs, src, dest);
    assert DirAt(f1, dest) by {
      CreateDirAllSpec(fs, dest);
      assert dest == dest[..|dest|] && dest in Prefixes(dest);
    }
    var f := f1 + g;
    forall k | k in f ensures k != [] && (|k| > 1 ==> DirAt(f, k[..|k| - 1])) {
      if k in g {
        GraftParent(fs, src, dest, k);
        if k[..|k| - 1] == dest { assert dest !in g; }
      } else {
        assert k in f1 && !(dest < k);
        if |k| > 1 {
          assert DirAt(f1, k[..|k| - 1]);
          assert !(dest < k[..|k| - 1]);
          assert k[..|k| - 1] !in g by {
            if k[..|k| - 1] in g { GraftParent(fs, src, dest, k[..|k| - 1]); }
          }
        }
      }
    }
  }

  /**
   * The directory copy to an absent `dest` succeeds exactly when `dest` can be created
   * with its ancestors; then `dest` is a directory holding, at the same relative places,
   * every entry below `src`, and every entry that was there is unchanged.
   */
  lemma CopyTreeSpec(fs: Fs, src: Path, dest: Path)
    requires Valid(fs) && dest !in fs && dest != []
    ensures CopyTree(fs, src, dest).Ok? <==> CanCreateDirs(fs, dest)
    ensures CopyTree(fs, src, dest).Ok? ==>
      var f := CopyTree(fs, src, dest).value;
      && DirAt(f, dest)
      && (forall q | q in fs && src < q :: dest + q[|src|..] in f && f[dest + q[|src|..]] == fs[q])
      && (forall q | q in fs :: q in f && f[q] == fs[q])
      && (forall q | q in f && q !in fs :: (q in Prefixes(dest) && f[q] == Dir) || dest < q)
  {
    CreateDirAllSpec(fs, dest);
    if CreateDirAll(fs, dest).Ok? {
      WithDirsAdds(fs, dest);
      var f1 := CreateDirAll(fs, dest).value;
      CreateDirAllMakesDirs(fs, dest);
      NothingBelowNewDir(fs, dest);
      var g := Graft(fs, src, dest);
      assert DirAt(f1, dest) by {
        assert dest == dest[..|dest|] && dest in Prefixes(dest);
      }
      forall q | q in fs && src < q ensures dest + q[|src|..] in f1 + g && (f1 + g)[dest + q[|src|..]] == fs[q] {
        GraftAt(fs, src, dest, q);
      }
      forall k | k in g ensures dest < k && k !in fs {
        GraftParent(fs, src, dest, k);
      }
    }
  }

  /**
   * Below `dest` the copied tree holds nothing but the graft of `src`: every entry there
   * is the entry at the matching place below `src`.
   */
  lemma CopyTreeAddsOnlyGraft(fs: Fs, src: Path, dest: Path)
    requires Valid(fs) && dest !in fs && dest != [] && CopyTree(fs, src, dest).Ok?
    ensures var f := CopyTree(fs, src, dest).value;
      forall q | q in f && dest < q :: src + q[|dest|..] in fs && f[q] == fs[src + q[|dest|..]]
  {
    NothingBelowNewDir(fs, dest);
    var f1 := CreateDirAll(fs, dest).value;
    var g := Graft(fs, src, dest);
    assert CopyTree(fs, src, dest).value == f1 + g;
    forall q | q in f1 + g && dest < q ensures src + q[|dest|..] in fs && (f1 + g)[q] == fs[src + q[|dest|..]] {
      assert q in GraftKeys(fs, src, dest);
    }
  }
}
