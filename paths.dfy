/**
 * Paths as the sequence of components `Path::iter` yields, and building a `PathBuf`
 * by pushing strings onto it.
 */
module Paths {
  import opened Strings
  import opened Errors

  /** A path as its components: `["/", "home", "alice"]` for `/home/alice`, `["proj", ".keep"]` for `proj/.keep`. */
  type Path = seq<string>

  /** On Unix a path is absolute when it starts at the root. */
  predicate IsAbsolute(c: string) {
    |c| > 0 && c[0] == '/'
  }

  /** The root comes first if at all; every other component is a non-empty name without a slash. */
  predicate WellFormed(p: Path) {
    forall i :: 0 <= i < |p| ==> (i == 0 && p[i] == "/") || (p[i] != "" && '/' !in p[i])
  }

  function NonEmpty(parts: seq<string>): (r: seq<string>)
    ensures forall k :: 0 <= k < |r| ==> r[k] != "" && r[k] in parts
    decreases |parts|
  {
    if parts == [] then []
    else (if parts[0] == "" then [] else [parts[0]]) + NonEmpty(parts[1..])
  }

  /** The components of a string: the root if it starts with a slash, then the names between slashes. */
  function Components(c: string): Path {
    (if IsAbsolute(c) then ["/"] else []) + NonEmpty(Split(c, "/"))
  }

  /** `PathBuf::push`: an absolute string replaces the whole path, any other is appended. */
  function Push(buf: Path, c: string): Path {
    if IsAbsolute(c) then Components(c) else buf + Components(c)
  }

  /** Pushing the strings in order onto `acc`. */
  function CollectFrom(acc: Path, parts: seq<string>): Path
    decreases |parts|
  {
    if parts == [] then acc else CollectFrom(Push(acc, parts[0]), parts[1..])
  }

  /** `collect::<PathBuf>()`: pushing the strings in order onto an empty path. */
  function Collect(parts: seq<string>): Path {
    CollectFrom([], parts)
  }

  /** `Path::parent`: the path without its last component; none for the empty path and for the root. */
  function Parent(p: Path): (r: Option<Path>)
    ensures r.Some? <==> p != [] && p != ["/"]
    ensures r.Some? ==> r.value + [p[|p| - 1]] == p
  {
    if p == [] || p == ["/"] then None else Some(p[..|p| - 1])
  }

  lemma NoSlashIn(x: string)
    requires !Contains(x, "/")
    ensures '/' !in x
  {
    SlashIsMatch(x);
  }

  lemma SlashIsMatch(x: string)
    ensures '/' in x ==> Contains(x, "/")
  {
    if '/' in x {
      var i :| 0 <= i < |x| && x[i] == '/';
      assert x[i..i + 1] == "/";
      assert MatchAt(x, "/", i);
    }
  }

  /** The components of any string are well-formed. */
  lemma ComponentsWellFormed(c: string)
    ensures WellFormed(Components(c))
    ensures !IsAbsolute(c) ==> forall k :: 0 <= k < |Components(c)| ==> Components(c)[k] != "/"
  {
    var pieces := Split(c, "/");
    SplitPiecesMatchFree(c, "/");
    var names := NonEmpty(pieces);
    forall k | 0 <= k < |names| ensures names[k] != "" && '/' !in names[k] {
      var j :| 0 <= j < |pieces| && pieces[j] == names[k];
      NoSlashIn(pieces[j]);
    }
  }

  /** A plain name is a single component. */
  lemma ComponentsOfName(c: string)
    requires c != "" && '/' !in c
    ensures Components(c) == [c]
  {
    MissingFirstChar(c, "/");
    SplitNoMatch(c, "/");
    assert c[0] in c;
    assert !IsAbsolute(c);
    assert NonEmpty([c]) == [c] + NonEmpty([]);
  }

  /** Pushing one list after another is pushing their concatenation. */
  lemma {:induction false} CollectFromAppend(acc: Path, xs: seq<string>, ys: seq<string>)
    ensures CollectFrom(acc, xs + ys) == CollectFrom(CollectFrom(acc, xs), ys)
    decreases |xs|
  {
    if xs == [] {
      assert xs + ys == ys;
    } else {
      assert (xs + ys)[1..] == xs[1..] + ys;
      CollectFromAppend(Push(acc, xs[0]), xs[1..], ys);
    }
  }

  /** An absolute string discards everything pushed before it. */
  lemma CollectRestartsAtAbsolute(xs: seq<string>, c: string, ys: seq<string>)
    requires IsAbsolute(c)
    ensures Collect(xs + [c] + ys) == Collect([c] + ys)
  {
    CollectFromAppend([], xs, [c] + ys);
    assert xs + [c] + ys == xs + ([c] + ys);
    assert ([c] + ys)[1..] == ys;
  }

  /** Pushing a plain name appends it. */
  lemma PushName(acc: Path, c: string)
    requires c != "" && '/' !in c
    ensures Push(acc, c) == acc + [c]
  {
    assert c[0] in c;
    ComponentsOfName(c);
  }

  lemma AppendHead<T>(acc: seq<T>, parts: seq<T>)
    requires parts != []
    ensures acc + [parts[0]] + parts[1..] == acc + parts
  {
    assert [parts[0]] + parts[1..] == parts;
  }

  /** Plain names, pushed in order, are exactly the components of the result. */
  lemma {:induction false} CollectFromNames(acc: Path, parts: seq<string>)
    requires forall k :: 0 <= k < |parts| ==> parts[k] != "" && '/' !in parts[k]
    ensures CollectFrom(acc, parts) == acc + parts
    decreases |parts|
  {
    if parts != [] {
      var c, rest := parts[0], parts[1..];
      assert CollectFrom(acc, parts) == CollectFrom(Push(acc, c), rest);
      PushName(acc, c);
      assert forall k :: 0 <= k < |rest| ==> rest[k] == parts[k + 1];
      CollectFromNames(acc + [c], rest);
      AppendHead(acc, parts);
    } else {
      assert acc + parts == acc;
    }
  }

  /** Whatever strings are pushed, the path built is well-formed. */
  lemma {:induction false} CollectFromWellFormed(acc: Path, parts: seq<string>)
    requires WellFormed(acc)
    ensures WellFormed(CollectFrom(acc, parts))
    decreases |parts|
  {
    if parts != [] {
      var c := parts[0];
      ComponentsWellFormed(c);
      var next := Push(acc, c);
      if !IsAbsolute(c) {
        var comps := Components(c);
        forall i | 0 <= i < |next| ensures (i == 0 && next[i] == "/") || (next[i] != "" && '/' !in next[i]) {
          if i >= |acc| { assert next[i] == comps[i - |acc|]; }
        }
      }
      CollectFromWellFormed(next, parts[1..]);
    }
  }
}
