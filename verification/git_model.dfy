// Git as the guarded commit sees it: trees, an index, pathspecs and the names
// git prints. The semantics of `diff --cached`, `ls-files`, `add`, `add -u` and
// `check-ignore` are assumptions of this model; trimming and dropping names is
// what the repository's own splitLines does (gitops/git_common.go).
module GitModel {
  import opened Blanks
  import Paths

  type Path = string
  type Blob = string
  type Tree = map<Path, Blob>

  /** How git prints a path on one output line, and what it ignores. */
  datatype Git = Git(printed: Path -> string, ignored: Path -> bool)

  /** `git diff --cached --name-only`: the paths where two trees differ. */
  function Diff(a: Tree, b: Tree): set<Path> {
    set q | q in a.Keys + b.Keys && (q !in a || q !in b || a[q] != b[q])
  }

  /** A literal pathspec matches a path and, as a directory, all below it. */
  predicate Covers(spec: Path, q: Path) {
    q == spec || spec + "/" <= q
  }

  /** Name by name: a pathspec matches what it is above, and "a" not "ab". */
  lemma CoversWhatItIsAbove(above: seq<string>, names: seq<string>)
    requires Paths.Names(above) && Paths.Names(names) && above != [] && names != []
    ensures Covers(Paths.Join(above), Paths.Join(names)) <==> above <= names
  {
    Paths.PrefixMeansAbove(above, names);
    Paths.JoinHasNoBareDot(above);
    if Paths.Join(above) == Paths.Join(names) {
      Paths.PathsAreUnique(above, names);
    } else {
      Paths.ProperPrefix(Paths.Join(above), Paths.Join(names));
    }
  }

  predicate Covered(specs: set<Path>, q: Path) {
    exists spec :: spec in specs && Covers(spec, q)
  }

  /** `git add -u`: tracked paths matching the pathspecs take their worktree
      state, or leave the index with it. */
  function AddTracked(index: Tree, worktree: Tree, specs: set<Path>): Tree {
    map q | q in index && (Covered(specs, q) ==> q in worktree) ::
      if Covered(specs, q) then worktree[q] else index[q]
  }

  /** `git add`: like `add -u`, and untracked files join unless ignored. */
  function AddFiles(git: Git, index: Tree, worktree: Tree, specs: set<Path>, force: bool): Tree {
    map q | q in index.Keys + worktree.Keys
            && if Covered(specs, q) then q in worktree && (q in index || force || !git.ignored(q)) else q in index ::
      if Covered(specs, q) then worktree[q] else index[q]
  }

  // -------------------------------------------------------------------------
  // The names a caller gets to see

  /** The name by which a printed path is known to the caller. */
  function Listed(git: Git, q: Path): string {
    TrimSpace(git.printed(q))
  }

  /** Git prints this name for the path, with or without blanks around it. */
  ghost predicate PrintedAs(git: Git, q: Path, name: string) {
    Core(name) && exists left, right :: Padding(left) && Padding(right) && git.printed(q) == left + name + right
  }

  /** A printed name is what the caller gets, and a path printed as it is keeps
      its name. */
  lemma PrintedNameIsListed(git: Git, q: Path, name: string)
    ensures PrintedAs(git, q, name) ==> Listed(git, q) == name && name != ""
    ensures git.printed(q) == q && Core(q) ==> PrintedAs(git, q, q)
    ensures Padding(git.printed(q)) ==> Listed(git, q) == ""
  {
    if PrintedAs(git, q, name) {
      var left, right :| Padding(left) && Padding(right) && git.printed(q) == left + name + right;
      TrimSpaceDropsPadding(left, name, right);
    }
    if git.printed(q) == q && Core(q) {
      assert q == "" + q + "" && Padding("");
    }
    if Padding(git.printed(q)) {
      TrimSpaceDropsPadding(git.printed(q), "", "");
      assert git.printed(q) + "" == git.printed(q);
    }
  }

  /** The names of a set of printed paths: blank ones disappear. */
  function Names(git: Git, paths: set<Path>): set<string> {
    set q | q in paths && Listed(git, q) != "" :: Listed(git, q)
  }

  predicate Faithful(git: Git, paths: set<Path>) {
    forall q :: q in paths ==> Listed(git, q) == q && q != ""
  }

  lemma FaithfulNames(git: Git, paths: set<Path>)
    requires Faithful(git, paths)
    ensures Names(git, paths) == paths
  {
    forall q ensures q in Names(git, paths) <==> q in paths {
      if q in paths { assert Listed(git, q) == q; }
    }
  }

  /** The loop over git's output lines. */
  method SplitLines(lines: seq<string>) returns (out: seq<string>)
    ensures forall name :: name in out <==> name != "" && exists line :: line in lines && TrimSpace(line) == name
  {
    out := [];
    for n := 0 to |lines|
      invariant forall name ::
                  name in out <==> name != "" && exists line :: line in lines[..n] && TrimSpace(line) == name
    {
      assert lines[..n + 1] == lines[..n] + [lines[n]];
      if TrimSpace(lines[n]) != "" {
        out := out + [TrimSpace(lines[n])];
      }
    }
    assert lines[..|lines|] == lines;
  }

  /** Git prints the differing paths one per line, in some order. */
  method PrintPaths(git: Git, paths: set<Path>) returns (lines: seq<string>)
    ensures forall line :: line in lines <==> exists q :: q in paths && git.printed(q) == line
  {
    lines := [];
    var pending := paths;
    while pending != {}
      invariant pending <= paths
      invariant forall line :: line in lines <==> exists q :: q in paths - pending && git.printed(q) == line
    {
      var q :| q in pending;
      pending := pending - {q};
      assert paths - pending == paths - (pending + {q}) + {q};
      lines := lines + [git.printed(q)];
    }
    assert paths - {} == paths;
  }

  /** What the caller learns about a set of paths git printed. */
  method ListPaths(git: Git, paths: set<Path>) returns (names: seq<string>)
    ensures forall name :: name in names <==> name in Names(git, paths)
  {
    var lines := PrintPaths(git, paths);
    names := SplitLines(lines);
    forall name ensures name in names <==> name in Names(git, paths) {
      if name in names {
        var line :| line in lines && TrimSpace(line) == name;
        var q :| q in paths && git.printed(q) == line;
        assert Listed(git, q) == name;
      }
      if q :| q in paths && Listed(git, q) == name && name != "" {
        assert git.printed(q) in lines;
      }
    }
  }
}
