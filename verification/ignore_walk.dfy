// The search walk and its stack of ignore levels (fileops/search.go,
// fileops/gitignore.go): the walk tells only which entry it enters, never
// which directory it left.
module IgnoreWalk {
  import opened Paths
  import opened IgnoreRules

  datatype Entry = Entry(name: string, node: Node)

  /** A tree of files; a symbolic link counts as a file. */
  datatype Node = File | Dir(children: seq<Entry>)

  predicate WellFormed(node: Node) {
    node.Dir? ==>
      && (forall i :: 0 <= i < |node.children| ==> Name(node.children[i].name) && WellFormed(node.children[i].node))
      && (forall i, j :: 0 <= i < j < |node.children| ==> node.children[i].name != node.children[j].name)
  }

  /** The ignore rules of each directory and the directories never entered. */
  datatype Source = Source(rules: string -> seq<Rule>, registry: seq<string> -> bool)

  function LevelOf(source: Source, dir: seq<string>): Level {
    Level(PathOf(dir), source.rules(PathOf(dir)))
  }

  /** The levels of an entry's ancestor directories, root first. */
  function Chain(source: Source, names: seq<string>): seq<Level> {
    seq(|names|, i requires 0 <= i < |names| => LevelOf(source, names[..i]))
  }

  predicate ChainIgnores(source: Source, names: seq<string>, isDir: bool) {
    Ignored(Hits(Chain(source, names), PathOf(names), isDir))
  }

  /** What rules of the i-th ancestor say: a rule without a slash reads the
      entry's own name, any other the path below that ancestor. */
  function HitsFrom(rules: seq<Rule>, names: seq<string>, i: nat, isDir: bool): seq<Hit>
    requires i < |names|
  {
    seq(|rules|, j requires 0 <= j < |rules| =>
      Hit(!(rules[j].dirOnly && !isDir)
          && rules[j].pattern(if rules[j].byBase then names[|names| - 1] else Join(names[i..])), rules[j].negate))
  }

  /** What the rules of the first n ancestors say, root first. */
  function AncestorHits(source: Source, names: seq<string>, n: nat, isDir: bool): seq<Hit>
    requires n <= |names|
  {
    if n == 0 then []
    else AncestorHits(source, names, n - 1, isDir)
         + HitsFrom(source.rules(PathOf(names[..n - 1])), names, n - 1, isDir)
  }

  lemma AncestorReads(source: Source, names: seq<string>, i: nat, isDir: bool)
    requires Names(names) && i < |names|
    ensures LevelHits(LevelOf(source, names[..i]), PathOf(names), isDir)
         == RuleHits(source.rules(PathOf(names[..i])), Join(names[i..]), isDir)
  {
    if i == 0 {
      assert names[0..] == names;
    } else {
      JoinHasNoBareDot(names[..i]);
      TrimLeavesRelative(names[..i], names);
      assert |Join(names[i..])| < |PathOf(names)|;
    }
  }

  lemma RulesReadNames(rules: seq<Rule>, names: seq<string>, i: nat, isDir: bool)
    requires i < |names| && Base(Join(names[i..])) == names[|names| - 1]
    ensures RuleHits(rules, Join(names[i..]), isDir) == HitsFrom(rules, names, i, isDir)
  {
  }

  lemma AncestorSees(source: Source, names: seq<string>, i: nat, isDir: bool)
    requires Names(names) && i < |names|
    ensures LevelHits(LevelOf(source, names[..i]), PathOf(names), isDir)
         == HitsFrom(source.rules(PathOf(names[..i])), names, i, isDir)
  {
    AncestorReads(source, names, i, isDir);
    BaseIsLastName(names[i..]);
    RulesReadNames(source.rules(PathOf(names[..i])), names, i, isDir);
  }

  lemma {:induction false} ChainHits(source: Source, names: seq<string>, n: nat, isDir: bool)
    requires Names(names) && n <= |names|
    ensures Hits(Chain(source, names)[..n], PathOf(names), isDir) == AncestorHits(source, names, n, isDir)
  {
    if n > 0 {
      ChainHits(source, names, n - 1, isDir);
      AncestorSees(source, names, n - 1, isDir);
      FrontOfFront(Chain(source, names), n - 1);
    }
  }

  lemma FrontOfFront<T>(s: seq<T>, n: nat)
    requires n < |s|
    ensures s[..n + 1][..n] == s[..n] && s[..n + 1][n] == s[n]
  {
  }

  /** The chain decides by the last matching rule of all ancestor directories,
      root first. */
  lemma ChainDecidesByAncestors(source: Source, names: seq<string>, isDir: bool)
    requires Names(names)
    ensures ChainIgnores(source, names, isDir) <==> Ignored(AncestorHits(source, names, |names|, isDir))
  {
    ChainHits(source, names, |names|, isDir);
    assert Chain(source, names)[..|names|] == Chain(source, names);
  }

  // -------------------------------------------------------------------------
  // Unwinding

  /** What the loop that unwinds the stack leaves. */
  function Unwound(levels: seq<Level>, path: string): seq<Level> {
    if levels == [] then []
    else
      var top := levels[|levels| - 1].path;
      if top == "." || top + "/" <= path + "/" then levels else Unwound(levels[..|levels| - 1], path)
  }

  /** Each level belongs to one directory. */
  ghost predicate LevelsOf(levels: seq<Level>, dirs: seq<seq<string>>, source: Source) {
    && |levels| == |dirs|
    && forall i :: 0 <= i < |dirs| ==> Names(dirs[i]) && levels[i] == LevelOf(source, dirs[i])
  }

  /** The entry's ancestors, then directories that are not above it. */
  predicate Above(dirs: seq<seq<string>>, names: seq<string>) {
    && |dirs| >= |names|
    && (forall i :: 0 <= i < |names| ==> dirs[i] == names[..i])
    && (forall i :: |names| <= i < |dirs| ==> !(dirs[i] <= names))
  }

  /** Unwinding by path prefix leaves exactly the chain of the entry's
      ancestors. */
  lemma {:induction false} UnwindingLeavesTheChain(
    levels: seq<Level>, dirs: seq<seq<string>>, source: Source, names: seq<string>)
    requires LevelsOf(levels, dirs, source) && Names(names) && Above(dirs, names)
    requires names == [] ==> dirs == []
    ensures Unwound(levels, PathOf(names)) == Chain(source, names)
    ensures LevelsOf(Chain(source, names), dirs[..|names|], source)
    ensures |names| <= |dirs|
  {
    if names != [] {
      var top := |levels| - 1;
      PrefixMeansAbove(dirs[top], names);
      if top >= |names| {
        UnwindingLeavesTheChain(levels[..top], dirs[..top], source, names);
        assert dirs[..top][..|names|] == dirs[..|names|];
      } else {
        assert levels == Chain(source, names);
      }
    }
  }

  /** The levels above a directory the walk starts from. */
  method AncestorLevels(source: Source, root: seq<string>) returns (levels: seq<Level>)
    requires Names(root)
    ensures levels == if root == [] then [LevelOf(source, [])] else Chain(source, root)
  {
    levels := [Level(".", source.rules("."))];
    if root == [] {
      return;
    }
    var acc := "";
    var i := 0;
    while i < |root| - 1
      invariant 0 <= i <= |root| - 1
      invariant acc == Join(root[..i])
      invariant levels == Chain(source, root[..i + 1])
    {
      JoinGrows(root[..i], root[i]);
      assert root[..i + 1] == root[..i] + [root[i]];
      if acc == "" {
        acc := root[i];
      } else {
        acc := acc + "/" + root[i];
      }
      ChainGrows(source, root[..i + 1], root[i + 1]);
      assert root[..i + 2] == root[..i + 1] + [root[i + 1]];
      levels := levels + [Level(acc, source.rules(acc))];
      i := i + 1;
    }
    assert root[..|root|] == root;
  }

  lemma ChainGrows(source: Source, names: seq<string>, name: string)
    ensures Chain(source, names + [name]) == Chain(source, names) + [LevelOf(source, names)]
  {
    assert forall i :: 0 <= i <= |names| ==> (names + [name])[..i] == names[..i];
    assert names[..|names|] == names;
  }

  lemma {:induction false} JoinGrows(names: seq<string>, name: string)
    requires Names(names)
    ensures Join(names + [name]) == if names == [] then name else Join(names) + "/" + name
    ensures names != [] ==> Join(names) != ""
  {
    if |names| == 1 {
      assert (names + [name])[1..] == [name];
    } else if |names| > 1 {
      JoinGrows(names[1..], name);
      assert (names + [name])[1..] == names[1..] + [name];
    }
  }

  // -------------------------------------------------------------------------
  // The walk

  const NEVER_ENTERED := ["node_modules", "__pycache__", "vendor"]

  /** A directory skipped whatever the rules say; the start may be hidden. */
  predicate Skipped(source: Source, names: seq<string>, root: seq<string>) {
    var base := if names == [] then "." else names[|names| - 1];
    || ("." <= base && names != root)
    || base in NEVER_ENTERED
    || (root <= names && source.registry(names[|root|..]))
  }

  /** The files the walk looks at, decided entry by entry from the chain of its
      ancestors: a pruned directory hides everything below it. */
  function Kept(source: Source, names: seq<string>, root: seq<string>, node: Node): seq<string>
    decreases node, if node.Dir? then |node.children| + 1 else 0
  {
    if node.File? then
      if names != root && ChainIgnores(source, names, false) then [] else [PathOf(names)]
    else if Skipped(source, names, root) || ChainIgnores(source, names, true) then []
    else KeptUnder(source, names, root, node, |node.children|)
  }

  function KeptUnder(source: Source, names: seq<string>, root: seq<string>, dir: Node, n: nat): seq<string>
    requires dir.Dir? && n <= |dir.children|
    decreases dir, n
  {
    if n == 0 then []
    else KeptUnder(source, names, root, dir, n - 1)
         + Kept(source, names + [dir.children[n - 1].name], root, dir.children[n - 1].node)
  }

  /** The files of an entry itself, which a directory has none of. */
  function OwnKept(source: Source, names: seq<string>, root: seq<string>, isDir: bool): seq<string> {
    if isDir || (names != root && ChainIgnores(source, names, false)) then [] else [PathOf(names)]
  }

  predicate Descends(source: Source, names: seq<string>, root: seq<string>, isDir: bool) {
    isDir && !Skipped(source, names, root) && !ChainIgnores(source, names, true)
  }

  lemma KeptOfEntry(start: seq<string>, source: Source, names: seq<string>, root: seq<string>, node: Node)
    ensures start + Kept(source, names, root, node)
         == if Descends(source, names, root, node.Dir?)
            then (start + OwnKept(source, names, root, true)) + KeptUnder(source, names, root, node, |node.children|)
            else start + OwnKept(source, names, root, node.Dir?)
  {
  }

  lemma KeptGrows(start: seq<string>, source: Source, names: seq<string>, root: seq<string>, dir: Node, n: nat)
    requires dir.Dir? && n < |dir.children|
    ensures start + KeptUnder(source, names, root, dir, n + 1)
         == (start + KeptUnder(source, names, root, dir, n))
            + Kept(source, names + [dir.children[n].name], root, dir.children[n].node)
  {
  }

  /** After an entry's subtree: its ancestors, then only its own directories. */
  predicate Left(dirs: seq<seq<string>>, names: seq<string>) {
    && |dirs| >= |names|
    && (forall i :: 0 <= i < |names| ==> dirs[i] == names[..i])
    && (forall i :: |names| <= i < |dirs| ==> names <= dirs[i])
  }

  /** Inside a directory, before its n-th child: the directory's own level is
      in place and whatever lies above it was left by an earlier child. */
  predicate Between(dirs: seq<seq<string>>, names: seq<string>, children: seq<Entry>, n: nat) {
    && n <= |children|
    && |dirs| > |names|
    && (forall i :: 0 <= i <= |names| ==> dirs[i] == names[..i])
    && (forall i :: |names| < i < |dirs| ==> exists j :: 0 <= j < n && names + [children[j].name] <= dirs[i])
  }

  lemma BetweenIsAbove(dirs: seq<seq<string>>, names: seq<string>, children: seq<Entry>, n: nat)
    requires Between(dirs, names, children, n) && n < |children| && WellFormed(Dir(children)) && Names(names)
    ensures Above(dirs, names + [children[n].name]) && Names(names + [children[n].name])
    ensures WellFormed(children[n].node)
  {
    var child := names + [children[n].name];
    forall i | 0 <= i < |child| ensures dirs[i] == child[..i] {
      assert names[..i] == child[..i];
    }
    forall i | |child| <= i < |dirs| ensures !(dirs[i] <= child) {
      var j :| 0 <= j < n && names + [children[j].name] <= dirs[i];
      assert (names + [children[j].name])[|names|] == children[j].name && child[|names|] == children[n].name;
    }
  }

  lemma LeftIsBetween(dirs: seq<seq<string>>, names: seq<string>, children: seq<Entry>, n: nat)
    requires n < |children| && Left(dirs, names + [children[n].name])
    ensures Between(dirs, names, children, n + 1)
  {
    var child := names + [children[n].name];
    forall i | 0 <= i <= |names| ensures dirs[i] == names[..i] {
      assert names[..i] == child[..i];
    }
  }

  lemma BetweenIsLeft(dirs: seq<seq<string>>, names: seq<string>, children: seq<Entry>, n: nat)
    requires Between(dirs, names, children, n)
    ensures Left(dirs, names)
  {
    forall i | |names| <= i < |dirs| ensures names <= dirs[i] {
      if i > |names| {
        var j :| 0 <= j < n && names + [children[j].name] <= dirs[i];
        assert names <= names + [children[j].name];
      } else {
        assert names[..|names|] == names;
      }
    }
  }

  lemma EntryIsLeft(before: seq<seq<string>>, dirs: seq<seq<string>>, names: seq<string>, children: seq<Entry>)
    requires Above(before, names)
    requires dirs == before[..|names|] || dirs == before[..|names|] + [names]
    ensures Left(dirs, names)
    ensures dirs == before[..|names|] + [names] ==> Between(dirs, names, children, 0)
  {
    assert names[..|names|] == names;
  }

  class Search {
    const source: Source
    const root: seq<string>
    var ignores: seq<Level>
    var kept: seq<string>
    /** The directory each level was loaded from. */
    ghost var dirs: seq<seq<string>>

    ghost predicate Valid()
      reads this
    {
      LevelsOf(ignores, dirs, source) && Names(root)
    }

    constructor (source: Source, root: seq<string>)
      requires Names(root)
      ensures Valid() && this.source == source && this.root == root && kept == [] && Above(dirs, root)
      ensures root == [] ==> dirs == []
    {
      this.source := source;
      this.root := root;
      kept := [];
      ignores := [];
      dirs := [];
      new;
      if root != [] {
        ignores := AncestorLevels(source, root);
        dirs := seq(|root|, i requires 0 <= i < |root| => root[..i]);
      }
    }

    method PopLeftDirs(path: string)
      modifies this
      ensures ignores == Unwound(old(ignores), path) && kept == old(kept) && dirs == old(dirs)
    {
      while |ignores| > 0
        invariant Unwound(ignores, path) == Unwound(old(ignores), path) && kept == old(kept) && dirs == old(dirs)
      {
        var top := ignores[|ignores| - 1].path;
        if top == "." || top + "/" <= path + "/" {
          return;
        }
        ignores := ignores[..|ignores| - 1];
      }
    }

    /** The walk's callback for one entry; false prunes the directory. */
    method Enter(names: seq<string>, isDir: bool) returns (descend: bool)
      requires Valid() && Names(names) && Above(dirs, names)
      requires names == [] ==> dirs == []
      modifies this
      ensures Valid() && dirs == old(dirs)[..|names|] + if descend then [names] else []
      ensures descend <==> Descends(source, names, root, isDir)
      ensures kept == old(kept) + OwnKept(source, names, root, isDir)
    {
      var path := PathOf(names);
      UnwindingLeavesTheChain(ignores, dirs, source, names);
      PopLeftDirs(path);
      dirs := dirs[..|names|];
      assert LevelsOf(ignores, dirs, source);
      var ignored := ScanBackward(ignores, path, isDir);
      if !isDir {
        if names == root || !ignored {
          kept := kept + [path];
        }
        return false;
      }
      if Skipped(source, names, root) || ignored {
        return false;
      }
      ignores := ignores + [LevelOf(source, names)];
      dirs := dirs + [names];
      return true;
    }

    /** Visiting an entry adds exactly the files its own ancestors let through,
        whatever levels earlier entries left on the stack. */
    method Visit(names: seq<string>, node: Node)
      requires Valid() && Names(names) && WellFormed(node) && Above(dirs, names)
      requires names == [] ==> dirs == []
      modifies this
      decreases node, 2
      ensures Valid() && Left(dirs, names)
      ensures kept == old(kept) + Kept(source, names, root, node)
    {
      ghost var before := dirs;
      KeptOfEntry(kept, source, names, root, node);
      var descend := Enter(names, node.Dir?);
      EntryIsLeft(before, dirs, names, if node.Dir? then node.children else []);
      if descend {
        VisitChildren(names, node);
      }
    }

    method VisitChild(names: seq<string>, node: Node, n: nat)
      requires Valid() && Names(names) && WellFormed(node) && node.Dir? && n < |node.children|
      requires Between(dirs, names, node.children, n)
      modifies this
      decreases node, 0
      ensures Valid() && Between(dirs, names, node.children, n + 1)
      ensures kept == old(kept) + Kept(source, names + [node.children[n].name], root, node.children[n].node)
    {
      BetweenIsAbove(dirs, names, node.children, n);
      Visit(names + [node.children[n].name], node.children[n].node);
      LeftIsBetween(dirs, names, node.children, n);
    }

    method VisitChildren(names: seq<string>, node: Node)
      requires Valid() && Names(names) && WellFormed(node) && node.Dir?
      requires Between(dirs, names, node.children, 0)
      modifies this
      decreases node, 1
      ensures Valid() && Left(dirs, names)
      ensures kept == old(kept) + KeptUnder(source, names, root, node, |node.children|)
    {
      var n := 0;
      while n < |node.children|
        invariant Valid() && Between(dirs, names, node.children, n)
        invariant kept == old(kept) + KeptUnder(source, names, root, node, n)
      {
        KeptGrows(old(kept), source, names, root, node, n);
        VisitChild(names, node, n);
        n := n + 1;
      }
      BetweenIsLeft(dirs, names, node.children, n);
    }
  }

  // -------------------------------------------------------------------------
  // The files found, path by path

  /** The names lead from the node down to a file. */
  predicate LeadsToFile(node: Node, below: seq<string>)
    decreases |below|, 1
  {
    if below == [] then node.File?
    else node.Dir? && exists i :: 0 <= i < |node.children| && Leads(node.children[i], below)
  }

  predicate Leads(entry: Entry, below: seq<string>)
    requires below != []
    decreases |below|, 0
  {
    entry.name == below[0] && LeadsToFile(entry.node, below[1..])
  }

  predicate AncestorsIgnore(source: Source, names: seq<string>, isDir: bool) {
    Ignored(AncestorHits(source, names, |names|, isDir))
  }

  /** What lets the walk into a directory. */
  predicate Entered(source: Source, root: seq<string>, names: seq<string>)
    requires root <= names
  {
    && (names == root || names[|names| - 1] == "" || names[|names| - 1][0] != '.')
    && (names == [] || names[|names| - 1] !in {"node_modules", "__pycache__", "vendor"})
    && !source.registry(names[|root|..])
    && !AncestorsIgnore(source, names, true)
  }

  /** The walk from the start gets to a file: it is there, it is the start or not
      ignored, and every directory from the start down to it lets the walk in. */
  ghost predicate Found(source: Source, root: seq<string>, tree: Node, below: seq<string>) {
    && LeadsToFile(tree, below)
    && (below == [] || !AncestorsIgnore(source, root + below, false))
    && forall k :: 0 <= k < |below| ==> EnteredAt(source, root, below, k)
  }

  predicate EnteredAt(source: Source, root: seq<string>, below: seq<string>, k: nat)
    requires k <= |below|
  {
    Entered(source, root, root + below[..k])
  }

  lemma DescendsIfEntered(source: Source, root: seq<string>, names: seq<string>)
    requires Names(names) && root <= names
    ensures Descends(source, names, root, true) <==> Entered(source, root, names)
  {
    ChainDecidesByAncestors(source, names, true);
    if names != [] {
      var base := names[|names| - 1];
      assert "." <= base <==> base[0] == '.';
    }
  }

  predicate KeptIn(source: Source, names: seq<string>, root: seq<string>, entry: Entry, path: string) {
    path in Kept(source, names + [entry.name], root, entry.node)
  }

  function Concat(parts: seq<seq<string>>, n: nat): seq<string>
    requires n <= |parts|
  {
    if n == 0 then [] else Concat(parts, n - 1) + parts[n - 1]
  }

  lemma {:induction false} InConcat(parts: seq<seq<string>>, n: nat, path: string)
    requires n <= |parts|
    ensures path in Concat(parts, n) <==> exists i :: 0 <= i < n && path in parts[i]
  {
    if n > 0 { InConcat(parts, n - 1, path); }
  }

  function Parts(source: Source, names: seq<string>, root: seq<string>, dir: Node): seq<seq<string>>
    requires dir.Dir?
  {
    seq(|dir.children|, i requires 0 <= i < |dir.children| =>
      Kept(source, names + [dir.children[i].name], root, dir.children[i].node))
  }

  lemma {:induction false} SumsAreConcat(sums: seq<seq<string>>, parts: seq<seq<string>>, n: nat)
    requires |sums| == |parts| + 1 && n <= |parts| && sums[0] == []
    requires forall m :: 0 <= m < |parts| ==> sums[m + 1] == sums[m] + parts[m]
    ensures sums[n] == Concat(parts, n)
  {
    if n > 0 { SumsAreConcat(sums, parts, n - 1); }
  }

  function Sums(source: Source, names: seq<string>, root: seq<string>, dir: Node): seq<seq<string>>
    requires dir.Dir?
  {
    seq(|dir.children| + 1, n requires 0 <= n <= |dir.children| => KeptUnder(source, names, root, dir, n))
  }

  lemma SumsGrow(source: Source, names: seq<string>, root: seq<string>, dir: Node, n: nat)
    requires dir.Dir? && n < |dir.children|
    ensures var sums := Sums(source, names, root, dir);
            sums[n + 1] == sums[n] + Parts(source, names, root, dir)[n]
  {
  }

  lemma SumsStartEmpty(source: Source, names: seq<string>, root: seq<string>, dir: Node)
    requires dir.Dir?
    ensures Sums(source, names, root, dir)[0] == []
  {
  }

  lemma KeptUnderIsConcat(source: Source, names: seq<string>, root: seq<string>, dir: Node, parts: seq<seq<string>>)
    requires dir.Dir? && parts == Parts(source, names, root, dir)
    ensures KeptUnder(source, names, root, dir, |parts|) == Concat(parts, |parts|)
  {
    var sums := Sums(source, names, root, dir);
    SumsStartEmpty(source, names, root, dir);
    forall m | 0 <= m < |parts| ensures sums[m + 1] == sums[m] + parts[m] {
      SumsGrow(source, names, root, dir, m);
    }
    SumsAreConcat(sums, parts, |parts|);
  }

  /** A directory's files are its entries' files. */
  lemma KeptUnderHolds(source: Source, names: seq<string>, root: seq<string>, dir: Node, path: string)
    requires dir.Dir?
    ensures path in KeptUnder(source, names, root, dir, |dir.children|) <==>
            exists i :: 0 <= i < |dir.children| && KeptIn(source, names, root, dir.children[i], path)
  {
    var parts := Parts(source, names, root, dir);
    KeptUnderIsConcat(source, names, root, dir, parts);
    InConcat(parts, |dir.children|, path);
    forall i | 0 <= i < |dir.children|
      ensures path in parts[i] <==> KeptIn(source, names, root, dir.children[i], path) {}
  }

  lemma KeptByChild(source: Source, names: seq<string>, root: seq<string>, dir: Node, path: string) returns (i: nat)
    requires dir.Dir? && path in Kept(source, names, root, dir)
    ensures i < |dir.children| && KeptIn(source, names, root, dir.children[i], path)
  {
    KeptUnderHolds(source, names, root, dir, path);
    i :| 0 <= i < |dir.children| && KeptIn(source, names, root, dir.children[i], path);
  }

  /** What is kept of a subtree lies in it. */
  lemma {:induction false} KeptLiesBelow(
    source: Source, names: seq<string>, root: seq<string>, node: Node, path: string) returns (below: seq<string>)
    requires Names(names) && WellFormed(node) && path in Kept(source, names, root, node)
    ensures Names(below) && path == PathOf(names + below)
    decreases node
  {
    if node.File? {
      FileKeepsItself(source, names, root, path);
      below := [];
    } else {
      var i := KeptByChild(source, names, root, node, path);
      var name := node.children[i].name;
      below := KeptLiesBelow(source, names + [name], root, node.children[i].node, path);
      Deeper(names, name, below);
      below := [name] + below;
    }
  }

  lemma FileKeepsItself(source: Source, names: seq<string>, root: seq<string>, path: string)
    requires path in Kept(source, names, root, File)
    ensures path == PathOf(names + [])
  {
    assert names + [] == names;
  }

  lemma Deeper(names: seq<string>, name: string, below: seq<string>)
    requires Names(below) && Name(name)
    ensures names + [name] + below == names + ([name] + below) && Names([name] + below)
  {
  }

  ghost predicate Reached(source: Source, root: seq<string>, at: seq<string>, node: Node, below: seq<string>) {
    && LeadsToFile(node, below)
    && (at + below == [] || !AncestorsIgnore(source, root + at + below, false))
    && forall k :: |at| <= k < |at + below| ==> EnteredAt(source, root, at + below, k)
  }

  lemma {:induction false} KeptExactly(
    source: Source, root: seq<string>, at: seq<string>, node: Node, below: seq<string>)
    requires Names(root) && Names(at) && Names(below) && WellFormed(node)
    ensures PathOf(root + at + below) in Kept(source, root + at, root, node) <==> Reached(source, root, at, node, below)
    decreases |below|, 2
  {
    var names := root + at;
    if node.File? {
      FileKeptExactly(source, root, at, below);
    } else if below == [] {
      DirKeepsNotItself(source, root, names, node);
      assert names + below == names;
    } else {
      StepKeptExactly(source, root, at, node, below);
    }
  }

  lemma FileKeptExactly(source: Source, root: seq<string>, at: seq<string>, below: seq<string>)
    requires Names(root) && Names(at) && Names(below)
    ensures PathOf(root + at + below) in Kept(source, root + at, root, File) <==> Reached(source, root, at, File, below)
  {
    var names := root + at;
    assert below == [] ==> at + below == at && names + below == names;
    ChainDecidesByAncestors(source, names, false);
    assert at == [] <==> names == root by { if names == root { assert |at| == 0; } }
    if PathOf(names + below) == PathOf(names) {
      PathsAreUnique(names + below, names);
      assert |below| == 0;
    } else {
      assert below == [] ==> names + below == names;
    }
  }

  lemma DirKeepsNotItself(source: Source, root: seq<string>, names: seq<string>, dir: Node)
    requires Names(names) && WellFormed(dir) && dir.Dir?
    ensures PathOf(names) !in Kept(source, names, root, dir)
  {
    if PathOf(names) in Kept(source, names, root, dir) {
      var i := KeptByChild(source, names, root, dir, PathOf(names));
      var child := names + [dir.children[i].name];
      var below := KeptLiesBelow(source, child, root, dir.children[i].node, PathOf(names));
      assert |child + below| > |names|;
      PathsAreUnique(names, child + below);
    }
  }

  /** A path below a child is kept by that child. */
  lemma ChildKeeps(source: Source, root: seq<string>, names: seq<string>, entry: Entry, below: seq<string>)
    requires Names(names) && Names(below) && below != [] && Name(entry.name) && WellFormed(entry.node)
    requires KeptIn(source, names, root, entry, PathOf(names + below))
    ensures entry.name == below[0]
  {
    var child := names + [entry.name];
    var rest := KeptLiesBelow(source, child, root, entry.node, PathOf(names + below));
    PathsAreUnique(names + below, child + rest);
    assert (names + below)[|names|] == (child + rest)[|names|];
  }

  /** The entry that the path goes through decides. */
  lemma EntryKeepsExactly(
    source: Source, root: seq<string>, at: seq<string>, entry: Entry, below: seq<string>)
    requires Names(root) && Names(at) && Names(below) && below != [] && Name(entry.name) && WellFormed(entry.node)
    ensures KeptIn(source, root + at, root, entry, PathOf(root + at + below)) <==>
              entry.name == below[0] && Reached(source, root, at + [below[0]], entry.node, below[1..])
    decreases |below|, 0
  {
    var further := at + [below[0]];
    assert root + further + below[1..] == root + at + below && root + further == root + at + [below[0]];
    if entry.name == below[0] {
      KeptExactly(source, root, further, entry.node, below[1..]);
    } else if KeptIn(source, root + at, root, entry, PathOf(root + at + below)) {
      ChildKeeps(source, root, root + at, entry, below);
    }
  }

  lemma StepKeptExactly(source: Source, root: seq<string>, at: seq<string>, node: Node, below: seq<string>)
    requires Names(root) && Names(at) && Names(below) && WellFormed(node) && node.Dir? && below != []
    ensures PathOf(root + at + below) in Kept(source, root + at, root, node) <==> Reached(source, root, at, node, below)
    decreases |below|, 1
  {
    var names, path := root + at, PathOf(root + at + below);
    DescendsIfEntered(source, root, names);
    KeptUnderHolds(source, names, root, node, path);
    forall i | 0 <= i < |node.children|
      ensures KeptIn(source, names, root, node.children[i], path) <==>
              node.children[i].name == below[0]
              && Reached(source, root, at + [below[0]], node.children[i].node, below[1..])
    {
      EntryKeepsExactly(source, root, at, node.children[i], below);
    }
    ReachedThroughEntry(source, root, at, node, below);
  }

  lemma ReachedThroughEntry(source: Source, root: seq<string>, at: seq<string>, node: Node, below: seq<string>)
    requires node.Dir? && below != []
    ensures Reached(source, root, at, node, below) <==>
              && Entered(source, root, root + at)
              && exists i :: 0 <= i < |node.children| && node.children[i].name == below[0]
                          && Reached(source, root, at + [below[0]], node.children[i].node, below[1..])
  {
    var further := at + [below[0]];
    assert further + below[1..] == at + below;
    assert root + further + below[1..] == root + at + below;
    assert (at + below)[..|at|] == at;
    assert EnteredAt(source, root, at + below, |at|) <==> Entered(source, root, root + at);
    forall i | 0 <= i < |node.children|
      ensures Leads(node.children[i], below) <==>
              node.children[i].name == below[0] && LeadsToFile(node.children[i].node, below[1..]) {}
  }

  /** The result, path by path: exactly the files the walk gets to, each once. */
  method SearchFiles(source: Source, root: seq<string>, tree: Node) returns (kept: seq<string>)
    requires Names(root) && WellFormed(tree)
    ensures kept == Kept(source, root, root, tree)
    ensures forall below :: Names(below) ==> (PathOf(root + below) in kept <==> Found(source, root, tree, below))
    ensures forall path :: path in kept ==> exists below :: Names(below) && path == PathOf(root + below)
  {
    var search := new Search(source, root);
    search.Visit(root, tree);
    kept := search.kept;
    KeptIsFound(source, root, tree);
  }

  lemma KeptIsFound(source: Source, root: seq<string>, tree: Node)
    requires Names(root) && WellFormed(tree)
    ensures var kept := Kept(source, root, root, tree);
            && (forall below :: Names(below) ==>
                  (PathOf(root + below) in kept <==> Found(source, root, tree, below)))
            && forall path :: path in kept ==> exists below :: Names(below) && path == PathOf(root + below)
  {
    var kept := Kept(source, root, root, tree);
    assert root + [] == root;
    forall below | Names(below) ensures PathOf(root + below) in kept <==> Found(source, root, tree, below) {
      KeptExactly(source, root, [], tree, below);
      assert [] + below == below;
    }
    forall path | path in kept ensures exists below :: Names(below) && path == PathOf(root + below) {
      var below := KeptLiesBelow(source, root, root, tree, path);
    }
  }
}
