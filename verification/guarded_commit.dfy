// The guarded commit transaction over one quiet repository
// (gitops/git_commit.go, gitops/git_commitlock.go).
module GuardedCommit {
  import opened Blanks
  import opened GitModel

  datatype Outcome = Committed(tree: Tree) | Skipped | Conflict | Failed

  /** A file, or a directory with files below it. */
  predicate Exists(worktree: Tree, f: Path) {
    exists q :: q in worktree && Covers(f, q)
  }

  /** `ls-files` over the owned pathspecs, by the names the caller gets. */
  function TrackedNames(git: Git, owned: set<Path>, index: Tree): set<string> {
    Names(git, set q | q in index && Covered(owned, q))
  }

  /** Git refuses a pathspec that matches nothing it tracks. */
  predicate UpdateRefused(index: Tree, specs: set<Path>) {
    exists spec :: spec in specs && forall q :: q in index ==> !Covers(spec, q)
  }

  function Untracked(owned: set<Path>, tracked: set<string>, worktree: Tree): set<Path> {
    set f | f in owned && f !in tracked && Exists(worktree, f)
  }

  /** The untracked paths git reports as ignored, by the names the caller gets
      for the "./" arguments it passed. */
  function IgnoredNames(git: Git, existing: set<Path>): set<string> {
    set name | name in Names(git, set f | f in existing && git.ignored(f) :: "./" + f) :: TrimDot(name)
  }

  function TrimDot(name: string): string {
    if "./" <= name then name[2..] else name
  }

  /** Git refuses to add an ignored path by name without force. */
  predicate AddRefused(git: Git, existing: set<Path>) {
    exists f :: f in existing && f !in IgnoredNames(git, existing) && git.ignored(f)
  }

  /** Adds the owned paths git does not track yet, forcing the ignored ones. */
  function AddUntracked(git: Git, index: Tree, worktree: Tree, existing: set<Path>): Tree {
    var ignored := IgnoredNames(git, existing);
    AddFiles(git, AddFiles(git, index, worktree, existing - ignored, false), worktree, existing * ignored, true)
  }

  /** Everything the transaction stages into its scratch index. */
  function Stage(git: Git, owned: set<Path>, scratch: Tree, worktree: Tree): Tree {
    var tracked := TrackedNames(git, owned, scratch);
    AddUntracked(git, AddTracked(scratch, worktree, tracked), worktree, Untracked(owned, tracked, worktree))
  }

  /** One of the two staging commands fails. */
  predicate StagingRefused(git: Git, owned: set<Path>, scratch: Tree, worktree: Tree) {
    var tracked := TrackedNames(git, owned, scratch);
    UpdateRefused(scratch, tracked) || AddRefused(git, Untracked(owned, tracked, worktree))
  }

  /** A staged set passes the ownership check by its names. */
  predicate Accepted(git: Git, owned: set<Path>, staged: set<Path>) {
    Names(git, staged) <= owned
  }

  function Transaction(git: Git, owned: set<Path>, head: Tree, snapshot: Tree, worktree: Tree): Outcome {
    if !Accepted(git, owned, Diff(head, snapshot)) then Conflict
    else if StagingRefused(git, owned, snapshot, worktree) then Failed
    else
      var staged := Stage(git, owned, snapshot, worktree);
      if Names(git, Diff(head, staged)) == {} then Skipped
      else if !Accepted(git, owned, Diff(head, staged)) then Conflict
      else Committed(staged)
  }

  // -------------------------------------------------------------------------
  // What the ownership check is worth

  /** Names decide, so a path whose name trims to an owned one slips through,
      and a path whose name trims to nothing travels with any owned change. */
  ghost predicate Exposed(git: Git, owned: set<Path>, paths: set<Path>) {
    exists q :: q in paths && q !in owned
                && (|| Listed(git, q) in owned
                    || (Listed(git, q) == "" && exists o :: o in paths && Listed(git, o) in owned))
  }

  /** The check accepts only owned changes, for every non-empty staged set over
      the given paths, exactly when no path among them is exposed. */
  lemma CheckIsExactUnlessExposed(git: Git, owned: set<Path>, paths: set<Path>)
    requires "" !in owned
    ensures (forall staged :: staged <= paths && Names(git, staged) != {} && Accepted(git, owned, staged) ==>
        staged <= owned)
            <==> !Exposed(git, owned, paths)
  {
    if Exposed(git, owned, paths) {
      var q :| q in paths && q !in owned
               && (|| Listed(git, q) in owned
                   || (Listed(git, q) == "" && exists o :: o in paths && Listed(git, o) in owned));
      var staged := {q};
      if Listed(git, q) == "" {
        var o :| o in paths && Listed(git, o) in owned;
        staged := {q, o};
        assert Listed(git, o) in Names(git, staged);
      } else {
        assert Listed(git, q) in Names(git, staged);
      }
      assert staged <= paths && Names(git, staged) != {} && Accepted(git, owned, staged) && q in staged;
    } else {
      forall staged | staged <= paths && Names(git, staged) != {} && Accepted(git, owned, staged)
          ensures staged <= owned {
        var name :| name in Names(git, staged);
        var o :| o in staged && Listed(git, o) == name;
        forall q | q in staged ensures q in owned {
          assert Listed(git, q) != "" ==> Listed(git, q) in Names(git, staged);
        }
      }
    }
  }

  /** Concretely: with `a` owned, a foreign staged file named ` a` is committed. */
  lemma PaddedNameSlipsThrough(git: Git, blob: Blob)
    requires git.printed(" a") == " a"
    ensures Transaction(git, {"a"}, map[], map[" a" := blob], map[]) == Committed(map[" a" := blob])
  {
    var index: Tree := map[" a" := blob];
    assert TrimRight("a") == "a";
    assert TrimLeft("a") == "a" && " a"[1..] == "a";
    assert Listed(git, " a") == "a";
    assert Diff(map[], index) == {" a"};
    assert Names(git, {" a"}) == {"a"};
    assert !Covers("a", " a") by { assert ("a" + "/")[0] == 'a'; assert " a"[0] == ' '; }
    assert (set q | q in index && Covered({"a"}, q)) == {};
    assert TrackedNames(git, {"a"}, index) == {};
    assert Stage(git, {"a"}, index, map[]) == index;
  }

  // -------------------------------------------------------------------------
  // What a commit contains

  /** HEAD with the owned paths replaced by their worktree state. */
  function Overlay(head: Tree, worktree: Tree, owned: set<Path>): Tree {
    map q | q in head.Keys + worktree.Keys && (if q in owned then q in worktree else q in head) ::
      if q in owned then worktree[q] else head[q]
  }

  predicate SameAt(a: Tree, b: Tree, q: Path) {
    (q in a <==> q in b) && (q in a ==> a[q] == b[q])
  }

  lemma SameUnlessDiffers(a: Tree, b: Tree, q: Path)
    ensures SameAt(a, b, q) <==> q !in Diff(a, b)
  {
  }

  lemma SameEverywhere(a: Tree, b: Tree)
    requires forall q :: SameAt(a, b, q)
    ensures a == b
  {
    forall q ensures q in a <==> q in b { assert SameAt(a, b, q); }
    forall q | q in a ensures a[q] == b[q] { assert SameAt(a, b, q); }
  }

  /** Staging takes this path's state from the worktree. */
  ghost predicate Swept(git: Git, owned: set<Path>, scratch: Tree, worktree: Tree, q: Path) {
    var tracked := TrackedNames(git, owned, scratch);
    var existing := Untracked(owned, tracked, worktree);
    if q in scratch then Covered(tracked + existing, q)
    else exists f :: f in existing && Covers(f, q) && (f in IgnoredNames(git, existing) || !git.ignored(q))
  }

  lemma UpdateSweeps(index: Tree, worktree: Tree, specs: set<Path>, q: Path)
    ensures if q in index && Covered(specs, q)
            then SameAt(AddTracked(index, worktree, specs), worktree, q)
            else SameAt(AddTracked(index, worktree, specs), index, q)
  {
  }

  lemma AddSweeps(git: Git, index: Tree, worktree: Tree, specs: set<Path>, force: bool, q: Path)
    ensures if Covered(specs, q) && (q in index || force || !git.ignored(q))
            then SameAt(AddFiles(git, index, worktree, specs, force), worktree, q)
            else SameAt(AddFiles(git, index, worktree, specs, force), index, q)
  {
  }

  /** Whatever git prints and ignores: staging brings exactly the swept paths
      to their worktree state and leaves every other path as it was. */
  lemma StagingSweeps(git: Git, owned: set<Path>, scratch: Tree, worktree: Tree, q: Path)
    ensures if Swept(git, owned, scratch, worktree, q)
            then SameAt(Stage(git, owned, scratch, worktree), worktree, q)
            else SameAt(Stage(git, owned, scratch, worktree), scratch, q)
  {
    var tracked := TrackedNames(git, owned, scratch);
    var existing := Untracked(owned, tracked, worktree);
    var ignored := IgnoredNames(git, existing);
    var updated := AddTracked(scratch, worktree, tracked);
    var added := AddFiles(git, updated, worktree, existing - ignored, false);
    UpdateSweeps(scratch, worktree, tracked, q);
    AddSweeps(git, updated, worktree, existing - ignored, false, q);
    AddSweeps(git, added, worktree, existing * ignored, true, q);
    assert Stage(git, owned, scratch, worktree) == AddFiles(git, added, worktree, existing * ignored, true);
    CoveredSplit(tracked, existing, ignored, q);
  }

  lemma CoveredSplit(tracked: set<Path>, existing: set<Path>, ignored: set<Path>, q: Path)
    ensures Covered(tracked + existing, q)
       <==> Covered(tracked, q) || Covered(existing - ignored, q) || Covered(existing * ignored, q)
  {
    if f :| f in tracked + existing && Covers(f, q) {
      assert f in tracked || f in existing - ignored || f in existing * ignored;
    }
  }

  /** A tree that differs from HEAD only in owned paths, and has those as the
      worktree does, is the overlay. */
  lemma OverlayIsTheOnlyOwnedChange(head: Tree, worktree: Tree, owned: set<Path>, tree: Tree)
    requires Diff(head, tree) <= owned
    requires forall q :: q in owned ==> SameAt(tree, worktree, q)
    ensures tree == Overlay(head, worktree, owned)
  {
    forall q ensures SameAt(tree, Overlay(head, worktree, owned), q) {
      if q in owned {
        assert SameAt(tree, worktree, q);
      } else {
        SameUnlessDiffers(head, tree, q);
      }
    }
    SameEverywhere(tree, Overlay(head, worktree, owned));
  }

  /** An owned path has its worktree state after staging exactly if it was
      swept or had that state before. */
  lemma StagedOwnedPathsFollowWorktree(git: Git, owned: set<Path>, scratch: Tree, worktree: Tree, q: Path)
    ensures SameAt(Stage(git, owned, scratch, worktree), worktree, q)
       <==> Swept(git, owned, scratch, worktree, q) || SameAt(scratch, worktree, q)
  {
    StagingSweeps(git, owned, scratch, worktree, q);
  }

  /** Whatever git prints: a committed tree is HEAD with the owned paths
      replaced by their worktree state exactly if none of its changes is exposed
      and every owned path is swept or was staged as it is. */
  lemma CommitIsOverlay(git: Git, owned: set<Path>, head: Tree, snapshot: Tree, worktree: Tree)
    requires "" !in owned
    ensures Transaction(git, owned, head, snapshot, worktree).Committed? ==>
              var tree := Transaction(git, owned, head, snapshot, worktree).tree;
              tree == Overlay(head, worktree, owned)
              <==> && !Exposed(git, owned, Diff(head, tree))
                   && forall q :: q in owned ==>
                       Swept(git, owned, snapshot, worktree, q) || SameAt(snapshot, worktree, q)
  {
    if Transaction(git, owned, head, snapshot, worktree).Committed? {
      var tree := Transaction(git, owned, head, snapshot, worktree).tree;
      AcceptedMeansOwnedUnlessExposed(git, owned, Diff(head, tree));
      OverlayExactly(head, worktree, owned, tree);
      forall q ensures SameAt(tree, worktree, q)
                  <==> Swept(git, owned, snapshot, worktree, q) || SameAt(snapshot, worktree, q) {
        StagedOwnedPathsFollowWorktree(git, owned, snapshot, worktree, q);
      }
    }
  }

  lemma OverlayExactly(head: Tree, worktree: Tree, owned: set<Path>, tree: Tree)
    ensures tree == Overlay(head, worktree, owned)
       <==> Diff(head, tree) <= owned && forall q :: q in owned ==> SameAt(tree, worktree, q)
  {
    if tree == Overlay(head, worktree, owned) {
      forall q | q in Diff(head, tree) ensures q in owned { SameUnlessDiffers(head, tree, q); }
    } else if Diff(head, tree) <= owned && forall q :: q in owned ==> SameAt(tree, worktree, q) {
      OverlayIsTheOnlyOwnedChange(head, worktree, owned, tree);
    }
  }

  /** One accepted set holds owned paths only exactly if none of it is exposed. */
  lemma AcceptedMeansOwnedUnlessExposed(git: Git, owned: set<Path>, staged: set<Path>)
    requires "" !in owned && Names(git, staged) != {} && Accepted(git, owned, staged)
    ensures staged <= owned <==> !Exposed(git, owned, staged)
  {
    CheckIsExactUnlessExposed(git, owned, staged);
  }

  // -------------------------------------------------------------------------
  // What names git prints do to a commit

  /** No path is printed blank or as an owned path other than itself. */
  predicate Unmistaken(git: Git, owned: set<Path>, paths: set<Path>) {
    forall q :: q in paths ==> Listed(git, q) != "" && (Listed(git, q) in owned ==> Listed(git, q) == q)
  }

  /** All of these paths are owned and printed as they are. */
  predicate OwnedByName(git: Git, owned: set<Path>, paths: set<Path>) {
    forall q :: q in paths ==> q in owned && Listed(git, q) == q
  }

  /** When no changed path is mistaken for another, a commit is made exactly if
      staging is not refused, changes something, and every change there was or
      is belongs to an owned path that git prints as it is. */
  lemma CommittedExactlyByName(git: Git, owned: set<Path>, head: Tree, snapshot: Tree, worktree: Tree)
    requires Unmistaken(git, owned, Diff(head, snapshot))
    requires Unmistaken(git, owned, Diff(head, Stage(git, owned, snapshot, worktree)))
    ensures var staged := Stage(git, owned, snapshot, worktree);
            Transaction(git, owned, head, snapshot, worktree).Committed?
            <==> && !StagingRefused(git, owned, snapshot, worktree) && staged != head
                 && OwnedByName(git, owned, Diff(head, snapshot)) && OwnedByName(git, owned, Diff(head, staged))
  {
    var staged := Stage(git, owned, snapshot, worktree);
    AcceptedByName(git, owned, Diff(head, snapshot));
    AcceptedByName(git, owned, Diff(head, staged));
    NoDifferenceMeansEqual(head, staged);
  }

  lemma AcceptedByName(git: Git, owned: set<Path>, changes: set<Path>)
    requires Unmistaken(git, owned, changes)
    ensures Accepted(git, owned, changes) <==> OwnedByName(git, owned, changes)
    ensures Names(git, changes) == {} <==> changes == {}
  {
    forall q | q in changes ensures Listed(git, q) in Names(git, changes) {}
  }

  /** An owned change whose name git quotes is never committed: staging it is
      refused, or its printed name counts as foreign. */
  lemma QuotedChangeIsNeverCommitted(git: Git, owned: set<Path>, head: Tree, snapshot: Tree, worktree: Tree, q: Path)
    requires q in Diff(head, Stage(git, owned, snapshot, worktree))
    requires Listed(git, q) != "" && Listed(git, q) !in owned
    ensures Transaction(git, owned, head, snapshot, worktree) in {Conflict, Failed}
  {
    assert Listed(git, q) in Names(git, Diff(head, Stage(git, owned, snapshot, worktree)));
  }

  /** Concretely: a new file in an empty repository is committed exactly if git
      prints its name as it is. */
  lemma NewFileIsCommittedExactlyByName(git: Git, f: Path, blob: Blob)
    requires !git.ignored(f) && f != ""
    ensures Transaction(git, {f}, map[], map[], map[f := blob]).Committed? <==> Listed(git, f) == f
  {
    var worktree: Tree := map[f := blob];
    assert Covers(f, f) && TrackedNames(git, {f}, map[]) == {} && Untracked({f}, {}, worktree) == {f};
    assert IgnoredNames(git, {f}) == {} by {
      assert (set g | g in {f} && git.ignored(g) :: "./" + g) == {};
    }
    var staged := Stage(git, {f}, map[], worktree);
    assert f in staged && Diff(map[], staged) == {f};
    assert Names(git, {f}) == if Listed(git, f) == "" then {} else {Listed(git, f)};
  }

  /** The file that git reports for the ignored argument g is f. */
  predicate ReportsAs(git: Git, g: Path, f: Path) {
    Listed(git, "./" + g) != "" && TrimDot(Listed(git, "./" + g)) == f
  }

  /** In any repository, staging is refused exactly if a tracked owned path is
      printed by a name that matches nothing tracked, or if git reports no
      ignored file by the name of a new owned file that it ignores; and the
      transaction fails exactly if that happens and nothing foreign was staged. */
  lemma StagingRefusedExactlyByName(git: Git, owned: set<Path>, head: Tree, snapshot: Tree, worktree: Tree)
    ensures Transaction(git, owned, head, snapshot, worktree).Failed? <==>
              && StagingRefused(git, owned, snapshot, worktree)
              && forall q :: q in Diff(head, snapshot) ==> Listed(git, q) in owned || Listed(git, q) == ""
    ensures var existing := Untracked(owned, TrackedNames(git, owned, snapshot), worktree);
            StagingRefused(git, owned, snapshot, worktree)
            <==> || (exists q :: q in snapshot && Covered(owned, q) && Listed(git, q) != ""
                                 && forall p :: p in snapshot ==> !Covers(Listed(git, q), p))
                 || (exists f :: f in existing && git.ignored(f)
                                 && forall g :: g in existing && git.ignored(g) ==> !ReportsAs(git, g, f))
  {
    var existing := Untracked(owned, TrackedNames(git, owned, snapshot), worktree);
    UpdateRefusedByName(git, owned, snapshot);
    forall f ensures f in IgnoredNames(git, existing)
        <==> exists g :: g in existing && git.ignored(g) && ReportsAs(git, g, f) {
      ReportedNames(git, existing, f);
    }
  }

  lemma UpdateRefusedByName(git: Git, owned: set<Path>, snapshot: Tree)
    ensures UpdateRefused(snapshot, TrackedNames(git, owned, snapshot))
       <==> exists q :: q in snapshot && Covered(owned, q) && Listed(git, q) != ""
                        && forall p :: p in snapshot ==> !Covers(Listed(git, q), p)
  {
    var paths := set q | q in snapshot && Covered(owned, q);
    if spec :| spec in Names(git, paths) && forall p :: p in snapshot ==> !Covers(spec, p) {
      var q :| q in paths && Listed(git, q) == spec && spec != "";
    }
    if q :| q in snapshot && Covered(owned, q) && Listed(git, q) != ""
            && forall p :: p in snapshot ==> !Covers(Listed(git, q), p) {
      assert q in paths && Listed(git, q) in Names(git, paths);
    }
  }

  lemma ReportedNames(git: Git, existing: set<Path>, f: Path)
    ensures f in IgnoredNames(git, existing) <==> exists g :: g in existing && git.ignored(g) && ReportsAs(git, g, f)
  {
    var arguments := set g | g in existing && git.ignored(g) :: "./" + g;
    if f in IgnoredNames(git, existing) {
      var name :| name in Names(git, arguments) && TrimDot(name) == f;
      var g :| g in existing && git.ignored(g) && Listed(git, "./" + g) == name && name != "";
      assert ReportsAs(git, g, f);
    }
    if g :| g in existing && git.ignored(g) && ReportsAs(git, g, f) {
      assert "./" + g in arguments;
      assert Listed(git, "./" + g) in Names(git, arguments);
    }
  }

  lemma NoDifferenceMeansEqual(a: Tree, b: Tree)
    ensures Diff(a, b) == {} <==> a == b
  {
    if Diff(a, b) == {} {
      forall q ensures SameAt(a, b, q) { SameUnlessDiffers(a, b, q); }
      SameEverywhere(a, b);
    }
  }

  // -------------------------------------------------------------------------
  // The outcome when git prints the names it is asked about as they are

  /** Git reports the ignored ones of these paths by the arguments it was given. */
  predicate FaithfulArguments(git: Git, files: set<Path>) {
    forall f :: f in files && git.ignored(f) ==> Listed(git, "./" + f) == "./" + f
  }

  /** The paths of a tree that the owned files and directories cover. */
  function CoveredPaths(owned: set<Path>, tree: Tree): set<Path> {
    set q | q in tree && Covered(owned, q)
  }

  /** The paths that owned files and directories sweep up: tracked ones below
      them, and untracked ones unless ignored and not forced. */
  ghost predicate Sweeps(git: Git, owned: set<Path>, snapshot: Tree, worktree: Tree, q: Path) {
    if q in snapshot then Covered(owned, q)
    else exists f :: && f in owned && f !in snapshot && Exists(worktree, f) && Covers(f, q)
                     && (git.ignored(f) || !git.ignored(q))
  }

  lemma IgnoredByName(git: Git, existing: set<Path>)
    requires FaithfulArguments(git, existing)
    ensures IgnoredNames(git, existing) == set f | f in existing && git.ignored(f)
  {
    var arguments := set f | f in existing && git.ignored(f) :: "./" + f;
    FaithfulNames(git, arguments);
    forall f | f in existing && git.ignored(f) ensures f in IgnoredNames(git, existing) {
      assert "./" + f in arguments;
      DotTrims(f);
    }
    forall name | name in IgnoredNames(git, existing) ensures name in existing && git.ignored(name) {
      var printed :| printed in arguments && TrimDot(printed) == name;
      var f :| f in existing && git.ignored(f) && "./" + f == printed;
      DotTrims(f);
    }
  }

  lemma DotTrims(f: Path)
    ensures TrimDot("./" + f) == f
  {
  }

  lemma CoversIsTransitive(a: Path, b: Path, c: Path)
    requires Covers(a, b) && Covers(b, c)
    ensures Covers(a, c)
  {
  }

  lemma TrackedAreCovered(git: Git, owned: set<Path>, snapshot: Tree)
    requires Faithful(git, CoveredPaths(owned, snapshot))
    ensures TrackedNames(git, owned, snapshot) == CoveredPaths(owned, snapshot)
    ensures !UpdateRefused(snapshot, TrackedNames(git, owned, snapshot))
  {
    var paths := CoveredPaths(owned, snapshot);
    FaithfulNames(git, paths);
    forall spec | spec in paths ensures exists q :: q in snapshot && Covers(spec, q) {
      assert Covers(spec, spec);
    }
  }

  lemma SweptPlainly(git: Git, owned: set<Path>, snapshot: Tree, worktree: Tree, q: Path)
    requires Faithful(git, CoveredPaths(owned, snapshot)) && FaithfulArguments(git, owned - snapshot.Keys)
    ensures Swept(git, owned, snapshot, worktree, q) <==> Sweeps(git, owned, snapshot, worktree, q)
  {
    var tracked := TrackedNames(git, owned, snapshot);
    var existing := Untracked(owned, tracked, worktree);
    TrackedAreCovered(git, owned, snapshot);
    forall f | f in owned ensures f in tracked <==> f in snapshot { assert Covers(f, f); }
    IgnoredByName(git, existing);
    if q in snapshot {
      if Covered(owned, q) {
        assert q in tracked && Covers(q, q);
      }
      if f :| f in tracked + existing && Covers(f, q) {
        if f in tracked {
          var o :| o in owned && Covers(o, f);
          CoversIsTransitive(o, f, q);
        }
      }
    } else {
      forall f | f in owned && f !in snapshot && Exists(worktree, f) ensures f in existing {}
    }
  }

  lemma StagingIsNotRefused(git: Git, owned: set<Path>, snapshot: Tree, worktree: Tree)
    requires Faithful(git, CoveredPaths(owned, snapshot)) && FaithfulArguments(git, owned - snapshot.Keys)
    ensures !StagingRefused(git, owned, snapshot, worktree)
  {
    var tracked := TrackedNames(git, owned, snapshot);
    TrackedAreCovered(git, owned, snapshot);
    forall f | f in owned ensures f in tracked <==> f in snapshot { assert Covers(f, f); }
    IgnoredByName(git, Untracked(owned, tracked, worktree));
  }

  /** The change of a path that is not owned but swept up with an owned
      directory, or with a file that became one. */
  ghost predicate SweptChange(git: Git, owned: set<Path>, head: Tree, snapshot: Tree, worktree: Tree, q: Path) {
    q !in owned && Sweeps(git, owned, snapshot, worktree, q) && !SameAt(head, worktree, q)
  }

  lemma StagedChangesAreOwned(git: Git, owned: set<Path>, head: Tree, snapshot: Tree, worktree: Tree)
    requires Faithful(git, CoveredPaths(owned, snapshot)) && FaithfulArguments(git, owned - snapshot.Keys)
    requires Diff(head, snapshot) <= owned
    ensures Diff(head, Stage(git, owned, snapshot, worktree)) <= owned
       <==> forall q :: !SweptChange(git, owned, head, snapshot, worktree, q)
  {
    var tree := Stage(git, owned, snapshot, worktree);
    forall q | q !in owned
      ensures q in Diff(head, tree) <==> SweptChange(git, owned, head, snapshot, worktree, q)
    {
      SameUnlessDiffers(head, snapshot, q);
      SameUnlessDiffers(head, tree, q);
      SweptPlainly(git, owned, snapshot, worktree, q);
      StagingSweeps(git, owned, snapshot, worktree, q);
    }
  }

  lemma StagingIsOverlay(git: Git, owned: set<Path>, head: Tree, snapshot: Tree, worktree: Tree)
    requires Faithful(git, CoveredPaths(owned, snapshot)) && FaithfulArguments(git, owned - snapshot.Keys)
    requires Diff(head, Stage(git, owned, snapshot, worktree)) <= owned
    ensures Stage(git, owned, snapshot, worktree) == Overlay(head, worktree, owned)
  {
    forall q | q in owned ensures SameAt(Stage(git, owned, snapshot, worktree), worktree, q) {
      assert Covers(q, q);
      SweptPlainly(git, owned, snapshot, worktree, q);
      StagingSweeps(git, owned, snapshot, worktree, q);
    }
    OverlayIsTheOnlyOwnedChange(head, worktree, owned, Stage(git, owned, snapshot, worktree));
  }

  lemma OutcomeByNames(git: Git, owned: set<Path>, head: Tree, snapshot: Tree, worktree: Tree)
    requires Faithful(git, CoveredPaths(owned, head) + CoveredPaths(owned, snapshot) + CoveredPaths(owned, worktree))
    requires FaithfulArguments(git, owned - snapshot.Keys)
    requires forall q :: q in Diff(head, snapshot) && q !in owned ==> Listed(git, q) != "" && Listed(git, q) !in owned
    ensures Transaction(git, owned, head, snapshot, worktree) ==
            if !(Diff(head, snapshot) <= owned) then Conflict
            else if exists q :: SweptChange(git, owned, head, snapshot, worktree, q) then Conflict
            else if Overlay(head, worktree, owned) == head then Skipped
            else Committed(Overlay(head, worktree, owned))
  {
    PreStagedCheck(git, owned, head, snapshot);
    if Diff(head, snapshot) <= owned {
      var tree := Stage(git, owned, snapshot, worktree);
      StagingIsNotRefused(git, owned, snapshot, worktree);
      StagedChangesAreOwned(git, owned, head, snapshot, worktree);
      ChangesAreFaithful(git, owned, head, snapshot, worktree);
      FaithfulNames(git, Diff(head, tree));
      NoDifferenceMeansEqual(head, tree);
      if Diff(head, tree) <= owned { StagingIsOverlay(git, owned, head, snapshot, worktree); }
    }
  }

  /** The whole outcome, owned files and directories alike: a conflict exactly
      when something foreign was staged before or would be swept up, skipped
      exactly when the worktree holds nothing new, otherwise the overlay is
      committed. */
  lemma TransactionOutcome(git: Git, owned: set<Path>, head: Tree, snapshot: Tree, worktree: Tree)
    requires forall q ::
               q in CoveredPaths(owned, head) + CoveredPaths(owned, snapshot) + CoveredPaths(owned, worktree) ==>
                 PrintedAs(git, q, q)
    requires forall f :: f in owned && f !in snapshot && git.ignored(f) ==> PrintedAs(git, "./" + f, "./" + f)
    requires forall q :: q in Diff(head, snapshot) && q !in owned ==>
               exists name :: PrintedAs(git, q, name) && name !in owned
    ensures Transaction(git, owned, head, snapshot, worktree) ==
            if !(Diff(head, snapshot) <= owned) then Conflict
            else if exists q :: SweptChange(git, owned, head, snapshot, worktree, q) then Conflict
            else if Overlay(head, worktree, owned) == head then Skipped
            else Committed(Overlay(head, worktree, owned))
  {
    forall q, name | PrintedAs(git, q, name) ensures Listed(git, q) == name && name != "" {
      PrintedNameIsListed(git, q, name);
    }
    OutcomeByNames(git, owned, head, snapshot, worktree);
  }

  lemma PreStagedCheck(git: Git, owned: set<Path>, head: Tree, snapshot: Tree)
    requires Faithful(git, CoveredPaths(owned, head) + CoveredPaths(owned, snapshot))
    requires forall q :: q in Diff(head, snapshot) && q !in owned ==> Listed(git, q) != "" && Listed(git, q) !in owned
    ensures Accepted(git, owned, Diff(head, snapshot)) <==> Diff(head, snapshot) <= owned
  {
    forall q | q in Diff(head, snapshot)
      ensures Listed(git, q) in Names(git, Diff(head, snapshot)) && (Listed(git, q) in owned <==> q in owned)
    {
      assert Covers(q, q);
      if q in owned { assert q in CoveredPaths(owned, head) + CoveredPaths(owned, snapshot); }
    }
  }

  /** Once nothing foreign was staged before, every staged change is covered. */
  lemma ChangesAreFaithful(git: Git, owned: set<Path>, head: Tree, snapshot: Tree, worktree: Tree)
    requires Faithful(git, CoveredPaths(owned, head) + CoveredPaths(owned, snapshot) + CoveredPaths(owned, worktree))
    requires FaithfulArguments(git, owned - snapshot.Keys) && Diff(head, snapshot) <= owned
    ensures Faithful(git, Diff(head, Stage(git, owned, snapshot, worktree)))
  {
    var tree := Stage(git, owned, snapshot, worktree);
    forall q | q in Diff(head, tree) ensures Listed(git, q) == q && q != "" {
      StagingSweeps(git, owned, snapshot, worktree, q);
      SweptPlainly(git, owned, snapshot, worktree, q);
      SameUnlessDiffers(head, snapshot, q);
      SameUnlessDiffers(head, tree, q);
      assert Covers(q, q);
      assert Covered(owned, q);
      assert q in head || q in snapshot || q in worktree;
    }
  }

  // -------------------------------------------------------------------------
  // The transaction as the code runs it

  /** The index a conflict is about: the one found, or the one staged. */
  function Refused(git: Git, owned: set<Path>, head: Tree, snapshot: Tree, worktree: Tree): Tree {
    if Accepted(git, owned, Diff(head, snapshot)) then Stage(git, owned, snapshot, worktree) else snapshot
  }

  function StatusOf(outcome: Outcome): string {
    match outcome
    case Committed(_) => "ok"
    case Skipped => "skipped"
    case Conflict => "conflict"
    case Failed => "error"
  }

  datatype Report = Report(status: string, staged: seq<string>)

  class Repository {
    var head: Tree
    var index: Tree
    var worktree: Tree

    constructor (head: Tree, index: Tree, worktree: Tree)
      ensures this.head == head && this.index == index && this.worktree == worktree
    {
      this.head, this.index, this.worktree := head, index, worktree;
    }

    /** Commits exactly the owned files, or leaves HEAD and the index alone. */
    method CommitOwned(git: Git, files: seq<Path>, message: string) returns (report: Report)
      modifies this`head, this`index
      ensures files == [] || TrimSpace(message) == "" ==>
                && report == Report(if files == [] then "skipped" else "error", [])
                && head == old(head) && index == old(index)
      ensures files != [] && TrimSpace(message) != "" ==>
                var outcome := Transaction(git, (set f | f in files), old(head), old(index), worktree);
                && (outcome.Committed? ==> report.status == "ok" && head == index == outcome.tree)
                && (outcome.Skipped? ==> report.status == "skipped" && report.staged == [])
                && (outcome.Conflict? ==> report.status == "conflict")
                && (outcome.Failed? ==> report.status == "error" && report.staged == [])
                && (!outcome.Committed? ==> head == old(head) && index == old(index))
      ensures report.status == "ok" ==>
                forall name :: name in report.staged <==> name in Names(git, Diff(old(head), head))
      ensures report.status == "conflict" ==> exists name :: name in report.staged && name !in files
      ensures report.status == "conflict" ==>
                var refused := Refused(git, (set f | f in files), old(head), old(index), worktree);
                forall name :: name in report.staged <==> name in Names(git, Diff(old(head), refused))
    {
      if files == [] {
        return Report("skipped", []);
      }
      if TrimSpace(message) == "" {
        return Report("error", []);
      }
      var outcome, names := CommitOwnedLocked(git, files, head, index, worktree);
      if outcome.Committed? {
        head := outcome.tree;
        index := head;
      }
      return Report(StatusOf(outcome), names);
    }
  }

  /** The body of the transaction, over a scratch copy of the index. */
  method CommitOwnedLocked(git: Git, files: seq<Path>, head: Tree, snapshot: Tree, worktree: Tree)
    returns (outcome: Outcome, names: seq<string>)
    ensures outcome == Transaction(git, (set f | f in files), head, snapshot, worktree)
    ensures outcome.Committed? ==> forall name :: name in names <==> name in Names(git, Diff(head, outcome.tree))
    ensures outcome.Conflict? ==> exists name :: name in names && name !in files
    ensures outcome.Conflict? ==>
              forall name ::
                name in names <==>
                name in Names(git, Diff(head, Refused(git, (set f | f in files), head, snapshot, worktree)))
    ensures outcome.Skipped? || outcome.Failed? ==> names == []
  {
    var allowed := OwnedSet(files);
    var foreign;
    names, foreign := CheckStaged(git, head, snapshot, allowed);
    if foreign {
      return Conflict, names;
    }
    var refused, scratch := StageOwned(git, files, allowed, snapshot, worktree);
    if refused {
      return Failed, [];
    }
    names, foreign := CheckStaged(git, head, scratch, allowed);
    if names == [] {
      return Skipped, [];
    }
    if foreign {
      return Conflict, names;
    }
    return Committed(scratch), names;
  }

  /** The staged names of an index, and whether one of them is not owned. */
  method CheckStaged(git: Git, head: Tree, index: Tree, allowed: set<Path>) returns (names: seq<string>, foreign: bool)
    ensures forall name :: name in names <==> name in Names(git, Diff(head, index))
    ensures names == [] <==> Names(git, Diff(head, index)) == {}
    ensures foreign <==> !Accepted(git, allowed, Diff(head, index))
    ensures foreign <==> exists name :: name in names && name !in allowed
  {
    names := ListPaths(git, Diff(head, index));
    foreign := AnyForeign(names, allowed);
    if names != [] { assert names[0] in names; }
  }

  /** Stages the owned files into the scratch index, unless git refuses. */
  method StageOwned(git: Git, files: seq<Path>, allowed: set<Path>, snapshot: Tree, worktree: Tree)
    returns (refused: bool, scratch: Tree)
    requires allowed == set f | f in files
    ensures refused <==> StagingRefused(git, allowed, snapshot, worktree)
    ensures !refused ==> scratch == Stage(git, allowed, snapshot, worktree)
  {
    var tracked := ListPaths(git, set q | q in snapshot && Covered(allowed, q));
    var trackedSet := OwnedSet(tracked);
    assert trackedSet == TrackedNames(git, allowed, snapshot);
    if UpdateRefused(snapshot, trackedSet) {
      return true, snapshot;
    }
    scratch := AddTracked(snapshot, worktree, trackedSet);
    var existing := ExistingFiles(files, trackedSet, worktree);
    var normal, force := SplitIgnored(git, existing);
    if f :| f in normal && git.ignored(f) {
      return true, snapshot;
    }
    scratch := AddFiles(git, scratch, worktree, normal, false);
    scratch := AddFiles(git, scratch, worktree, force, true);
    return false, scratch;
  }

  method OwnedSet(names: seq<Path>) returns (owned: set<Path>)
    ensures owned == set f | f in names
  {
    owned := {};
    for n := 0 to |names|
      invariant owned == set f | f in names[..n]
    {
      assert names[..n + 1] == names[..n] + [names[n]];
      owned := owned + {names[n]};
    }
    assert names[..|names|] == names;
  }

  /** The owned files git does not track and the worktree has. */
  method ExistingFiles(files: seq<Path>, tracked: set<string>, worktree: Tree) returns (existing: seq<Path>)
    ensures (set f | f in existing) == Untracked((set f | f in files), tracked, worktree)
  {
    existing := [];
    for n := 0 to |files|
      invariant forall f :: f in existing <==> f in files[..n] && f !in tracked && Exists(worktree, f)
    {
      assert files[..n + 1] == files[..n] + [files[n]];
      if files[n] !in tracked && Exists(worktree, files[n]) {
        existing := existing + [files[n]];
      }
    }
    assert files[..|files|] == files;
  }

  /** Splits untracked files by whether git reports their name as ignored. */
  method SplitIgnored(git: Git, existing: seq<Path>) returns (normal: set<Path>, force: set<Path>)
    ensures var files := set f | f in existing;
            normal == files - IgnoredNames(git, files) && force == files * IgnoredNames(git, files)
  {
    ghost var files := set f | f in existing;
    var names := ListPaths(git, set f | f in existing && git.ignored(f) :: "./" + f);
    var ignored := TrimDots(names);
    assert (set f | f in existing && git.ignored(f) :: "./" + f) == (set f | f in files && git.ignored(f) :: "./" + f);
    assert ignored == IgnoredNames(git, files);
    normal, force := {}, {};
    for n := 0 to |existing|
      invariant normal == set f | f in existing[..n] && f !in ignored
      invariant force == set f | f in existing[..n] && f in ignored
    {
      assert existing[..n + 1] == existing[..n] + [existing[n]];
      if existing[n] in ignored {
        force := force + {existing[n]};
      } else {
        normal := normal + {existing[n]};
      }
    }
    assert existing[..|existing|] == existing;
  }

  method TrimDots(names: seq<string>) returns (trimmed: set<string>)
    ensures trimmed == set name | name in names :: TrimDot(name)
  {
    trimmed := {};
    for n := 0 to |names|
      invariant trimmed == set name | name in names[..n] :: TrimDot(name)
    {
      assert names[..n + 1] == names[..n] + [names[n]];
      trimmed := trimmed + {TrimDot(names[n])};
    }
    assert names[..|names|] == names;
  }

  /** The ownership check over a list of names. */
  method AnyForeign(names: seq<string>, allowed: set<Path>) returns (foreign: bool)
    ensures foreign <==> exists name :: name in names && name !in allowed
  {
    for n := 0 to |names|
      invariant forall name :: name in names[..n] ==> name in allowed
    {
      assert names[..n + 1] == names[..n] + [names[n]];
      if names[n] !in allowed {
        return true;
      }
    }
    assert names[..|names|] == names;
    return false;
  }
}
