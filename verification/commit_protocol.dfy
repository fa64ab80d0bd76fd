// Guarded commits by any number of processes, interleaved with outsiders who
// write the real index and the worktree at will but do not move HEAD
// (gitops/git_commit.go, gitops/git_commitlock.go, gitops/git_common.go).
module CommitProtocol {
  import opened Wrappers
  import opened GitModel
  import opened GuardedCommit

  type Proc = nat

  /** Where a guarded commit stands. All but Idle hold the commit lock. */
  datatype Pc =
    | Idle
    | Locked(owned: set<Path>)
    | Snapped(owned: set<Path>, scratch: Tree)   // the real index is copied
    | Checked(owned: set<Path>, scratch: Tree)   // nothing foreign was staged
    | Updated(owned: set<Path>, scratch: Tree, tracked: set<string>)
    | Staged(owned: set<Path>, scratch: Tree)
    | Approved(owned: set<Path>, scratch: Tree)  // the staged set is owned
    | Unsynced(owned: set<Path>, tree: Tree)     // committed, real index not reset yet
    | Closing(outcome: Outcome)

  datatype Commit = Commit(owned: set<Path>, parent: Tree, tree: Tree)

  datatype State = State(
    head: Tree, log: seq<Commit>, index: Tree, worktree: Tree,
    lock: Option<Proc>, procs: map<Proc, Pc>)

  datatype Step =
    | Acquire(p: Proc, owned: set<Path>)
    | Snapshot(p: Proc)
    | CheckPreStaged(p: Proc)
    | UpdateTracked(p: Proc)
    | AddExisting(p: Proc)
    | CheckStaged(p: Proc)
    | CommitTree(p: Proc)
    | SyncIndex(p: Proc)
    | Release(p: Proc)
    | Abandon(p: Proc)  // an error or a crash; the kernel frees the lock
    | OutsideIndex(tree: Tree)
    | OutsideWorktree(tree: Tree)

  predicate Outside(step: Step) {
    step.OutsideIndex? || step.OutsideWorktree?
  }

  predicate Enabled(s: State, step: Step) {
    Outside(step) ||
    (&& step.p in s.procs
     && var pc := s.procs[step.p];
     match step
     case Acquire(_, _) => pc.Idle? && s.lock.None?
     case Snapshot(_) => pc.Locked?
     case CheckPreStaged(_) => pc.Snapped?
     case UpdateTracked(_) => pc.Checked?
     case AddExisting(_) => pc.Updated?
     case CheckStaged(_) => pc.Staged?
     case CommitTree(_) => pc.Approved?
     case SyncIndex(_) => pc.Unsynced?
     case Release(_) => pc.Closing?
     case Abandon(_) => !pc.Idle?)
  }

  function NextPc(git: Git, s: State, step: Step): Pc
    requires Enabled(s, step) && !Outside(step)
  {
    var pc := s.procs[step.p];
    match step
    case Acquire(_, owned) => Locked(owned)
    case Snapshot(_) => Snapped(pc.owned, s.index)
    case CheckPreStaged(_) =>
      if Accepted(git, pc.owned, Diff(s.head, pc.scratch)) then Checked(pc.owned, pc.scratch) else Closing(Conflict)
    case UpdateTracked(_) =>
      var tracked := TrackedNames(git, pc.owned, pc.scratch);
      if UpdateRefused(pc.scratch, tracked) then Closing(Failed)
      else Updated(pc.owned, AddTracked(pc.scratch, s.worktree, tracked), tracked)
    case AddExisting(_) =>
      var existing := Untracked(pc.owned, pc.tracked, s.worktree);
      if AddRefused(git, existing) then Closing(Failed)
      else Staged(pc.owned, AddUntracked(git, pc.scratch, s.worktree, existing))
    case CheckStaged(_) =>
      var staged := Diff(s.head, pc.scratch);
      if Names(git, staged) == {} then Closing(Skipped)
      else if !Accepted(git, pc.owned, staged) then Closing(Conflict)
      else Approved(pc.owned, pc.scratch)
    case CommitTree(_) => Unsynced(pc.owned, pc.scratch)
    case SyncIndex(_) => Closing(Committed(pc.tree))
    case Release(_) => Idle
    case Abandon(_) => Idle
  }

  function Apply(git: Git, s: State, step: Step): State
    requires Enabled(s, step)
  {
    if step.OutsideIndex? then s.(index := step.tree)
    else if step.OutsideWorktree? then s.(worktree := step.tree)
    else
      var pc, next := s.procs[step.p], NextPc(git, s, step);
      State(
        if step.CommitTree? then pc.scratch else s.head,
        if step.CommitTree? then s.log + [Commit(pc.owned, s.head, pc.scratch)] else s.log,
        if step.SyncIndex? then s.head else s.index,
        s.worktree,
        if next.Idle? then None else Some(step.p),
        s.procs[step.p := next])
  }

  ghost predicate Init(s: State) {
    s.log == [] && s.lock.None? && forall p :: p in s.procs ==> s.procs[p].Idle?
  }

  ghost predicate StepAt(git: Git, states: seq<State>, steps: seq<Step>, n: nat)
    requires n < |steps| && |states| == |steps| + 1
  {
    Enabled(states[n], steps[n]) && states[n + 1] == Apply(git, states[n], steps[n])
  }

  ghost predicate IsRun(git: Git, states: seq<State>, steps: seq<Step>) {
    && |states| == |steps| + 1
    && Init(states[0])
    && forall n :: 0 <= n < |steps| ==> StepAt(git, states, steps, n)
  }

  // -------------------------------------------------------------------------
  // What every step keeps

  ghost predicate MutualExclusion(s: State) {
    && (forall p :: p in s.procs ==> (!s.procs[p].Idle? <==> s.lock == Some(p)))
    && (s.lock.Some? ==> s.lock.value in s.procs)
  }

  /** What a commit's author checked still holds of the commit. */
  ghost predicate Sound(git: Git, owned: set<Path>, parent: Tree, tree: Tree) {
    Accepted(git, owned, Diff(parent, tree)) && Names(git, Diff(parent, tree)) != {}
  }

  ghost predicate ApprovalsSound(git: Git, s: State) {
    forall p :: p in s.procs && s.procs[p].Approved? ==> Sound(git, s.procs[p].owned, s.head, s.procs[p].scratch)
  }

  ghost predicate CommitsSound(git: Git, s: State) {
    forall n :: 0 <= n < |s.log| ==> Sound(git, s.log[n].owned, s.log[n].parent, s.log[n].tree)
  }

  /** Every commit's parent is the commit before it, and HEAD is the last. */
  ghost predicate Linear(s: State) {
    && (forall n :: 0 < n < |s.log| ==> s.log[n].parent == s.log[n - 1].tree)
    && (s.log != [] ==> s.head == s.log[|s.log| - 1].tree)
  }

  /** A process between its commit and its sync finds HEAD at its own commit. */
  ghost predicate SyncsOwnCommit(s: State) {
    forall p :: p in s.procs && s.procs[p].Unsynced? ==> s.head == s.procs[p].tree
  }

  ghost predicate Inv(git: Git, s: State) {
    MutualExclusion(s) && ApprovalsSound(git, s) && CommitsSound(git, s) && Linear(s) && SyncsOwnCommit(s)
  }

  lemma HolderIsAlone(s: State, p: Proc, q: Proc)
    requires MutualExclusion(s) && p in s.procs && q in s.procs && !s.procs[p].Idle? && !s.procs[q].Idle?
    ensures p == q
  {
  }

  lemma PreservesMutualExclusion(git: Git, s: State, step: Step)
    requires MutualExclusion(s) && Enabled(s, step)
    ensures MutualExclusion(Apply(git, s, step))
  {
  }

  lemma PreservesApprovals(git: Git, s: State, step: Step)
    requires MutualExclusion(s) && ApprovalsSound(git, s) && Enabled(s, step)
    ensures ApprovalsSound(git, Apply(git, s, step))
  {
    var t := Apply(git, s, step);
    forall p | p in t.procs && t.procs[p].Approved? ensures Sound(git, t.procs[p].owned, t.head, t.procs[p].scratch) {
      if !Outside(step) && p != step.p && !step.Acquire? {
        HolderIsAlone(s, p, step.p);
      }
    }
  }

  lemma PreservesSyncs(git: Git, s: State, step: Step)
    requires MutualExclusion(s) && SyncsOwnCommit(s) && Enabled(s, step)
    ensures SyncsOwnCommit(Apply(git, s, step))
  {
    var t := Apply(git, s, step);
    forall p | p in t.procs && t.procs[p].Unsynced? ensures t.head == t.procs[p].tree {
      if !Outside(step) && p != step.p && !step.Acquire? {
        HolderIsAlone(s, p, step.p);
      }
    }
  }

  lemma PreservesLog(git: Git, s: State, step: Step)
    requires ApprovalsSound(git, s) && CommitsSound(git, s) && Linear(s) && Enabled(s, step)
    ensures CommitsSound(git, Apply(git, s, step)) && Linear(Apply(git, s, step))
  {
    var t := Apply(git, s, step);
    if step.CommitTree? {
      var pc := s.procs[step.p];
      assert Sound(git, pc.owned, s.head, pc.scratch);
      forall n | 0 <= n < |t.log| ensures Sound(git, t.log[n].owned, t.log[n].parent, t.log[n].tree) {
        if n < |s.log| { assert t.log[n] == s.log[n]; }
      }
    } else {
      assert t.log == s.log && t.head == s.head;
    }
  }

  /** Every step keeps the invariant. */
  lemma EveryStepKeepsInvariant(git: Git, s: State, step: Step)
    requires Inv(git, s) && Enabled(s, step)
    ensures Inv(git, Apply(git, s, step))
  {
    PreservesMutualExclusion(git, s, step);
    PreservesApprovals(git, s, step);
    PreservesSyncs(git, s, step);
    PreservesLog(git, s, step);
  }

  lemma {:induction false} InvariantHoldsAlongRuns(git: Git, states: seq<State>, steps: seq<Step>, n: nat)
    requires IsRun(git, states, steps) && n < |states|
    ensures Inv(git, states[n])
  {
    if n > 0 {
      InvariantHoldsAlongRuns(git, states, steps, n - 1);
      assert StepAt(git, states, steps, n - 1);
      EveryStepKeepsInvariant(git, states[n - 1], steps[n - 1]);
    }
  }

  // -------------------------------------------------------------------------
  // Main results

  /** In every interleaving, every guarded commit names only owned paths against
      its parent, and touches only owned paths exactly if none of its changes is
      exposed by the names git prints. */
  lemma CommitsTouchOnlyOwnedPaths(git: Git, states: seq<State>, steps: seq<Step>, n: nat, k: nat)
    requires IsRun(git, states, steps) && n < |states| && k < |states[n].log|
    requires "" !in states[n].log[k].owned
    ensures var c := states[n].log[k];
            && Names(git, Diff(c.parent, c.tree)) <= c.owned
            && (Diff(c.parent, c.tree) <= c.owned <==> !Exposed(git, c.owned, Diff(c.parent, c.tree)))
  {
    InvariantHoldsAlongRuns(git, states, steps, n);
    var c := states[n].log[k];
    assert Sound(git, c.owned, c.parent, c.tree);
    AcceptedMeansOwnedUnlessExposed(git, c.owned, Diff(c.parent, c.tree));
  }

  /** Process p neither gives up nor finishes its transaction in steps m..n. */
  ghost predicate Holds(steps: seq<Step>, p: Proc, m: nat, n: nat) {
    m <= n <= |steps| && forall k :: m <= k < n ==> steps[k] != Release(p) && steps[k] != Abandon(p)
  }

  /** Guarded commits are serialised: while one is under way nothing but its
      own commit moves HEAD, and nothing but its own sync or an outsider
      writes the real index. */
  lemma {:induction false} HolderAloneMovesHead(git: Git, states: seq<State>, steps: seq<Step>, p: Proc, m: nat, n: nat)
    requires IsRun(git, states, steps) && m <= n < |states| && Holds(steps, p, m, n)
    requires p in states[m].procs && !states[m].procs[p].Idle?
    ensures p in states[n].procs && !states[n].procs[p].Idle?
    ensures (forall k :: m <= k < n ==> steps[k] != CommitTree(p)) ==>
              states[n].head == states[m].head && states[n].log == states[m].log
    ensures forall k :: m <= k < n && !steps[k].OutsideIndex? && steps[k] != SyncIndex(p) ==>
        states[k + 1].index == states[k].index
  {
    if m < n {
      HolderAloneMovesHead(git, states, steps, p, m, n - 1);
      InvariantHoldsAlongRuns(git, states, steps, n - 1);
      assert StepAt(git, states, steps, n - 1);
      HolderStays(git, states[n - 1], steps[n - 1], p);
    }
  }

  lemma HolderStays(git: Git, s: State, step: Step, p: Proc)
    requires Inv(git, s) && Enabled(s, step) && p in s.procs && !s.procs[p].Idle?
    requires step != Release(p) && step != Abandon(p)
    ensures var t := Apply(git, s, step);
            && p in t.procs && !t.procs[p].Idle?
            && (Outside(step) || step.p == p)
            && (step != CommitTree(p) ==> t.head == s.head && t.log == s.log)
            && (!step.OutsideIndex? && step != SyncIndex(p) ==> t.index == s.index)
  {
  }

  /** A transaction that ends without a commit of its own, however it ends,
      leaves HEAD where it found it and never wrote the real index. */
  lemma RejectionLeavesNoTrace(
    git: Git, states: seq<State>, steps: seq<Step>, p: Proc, owned: set<Path>, from: nat, to: nat)
    requires IsRun(git, states, steps) && from < to < |steps|
    requires steps[from] == Acquire(p, owned) && (steps[to] == Release(p) || steps[to] == Abandon(p))
    requires Holds(steps, p, from + 1, to)
    requires forall k :: from < k < to ==> steps[k] != CommitTree(p)
    ensures states[to + 1].head == states[from].head && states[to + 1].log == states[from].log
    ensures forall k :: from <= k <= to && !steps[k].OutsideIndex? ==> states[k + 1].index == states[k].index
  {
    assert StepAt(git, states, steps, from);
    assert StepAt(git, states, steps, to);
    HolderAloneMovesHead(git, states, steps, p, from + 1, to);
    NoSyncWithoutCommit(git, states, steps, p, from + 1, to);
  }

  /** Before its commit a transaction is not in the position to sync. */
  lemma {:induction false} NoSyncWithoutCommit(git: Git, states: seq<State>, steps: seq<Step>, p: Proc, m: nat, n: nat)
    requires IsRun(git, states, steps) && m <= n < |states| && Holds(steps, p, m, n)
    requires p in states[m].procs && !states[m].procs[p].Idle? && !states[m].procs[p].Unsynced?
    requires forall k :: m <= k < n ==> steps[k] != CommitTree(p)
    ensures p in states[n].procs && !states[n].procs[p].Idle? && !states[n].procs[p].Unsynced?
    ensures forall k :: m <= k < n ==> steps[k] != SyncIndex(p)
  {
    if m < n {
      NoSyncWithoutCommit(git, states, steps, p, m, n - 1);
      InvariantHoldsAlongRuns(git, states, steps, n - 1);
      assert StepAt(git, states, steps, n - 1);
      HolderStays(git, states[n - 1], steps[n - 1], p);
    }
  }

  // -------------------------------------------------------------------------
  // The interleaved transaction refines the atomic one

  /** How far p's transaction has come, measured against the atomic one run on
      the HEAD and index it started from. */
  ghost predicate Tracks(git: Git, s: State, p: Proc, owned: set<Path>, head: Tree, snapshot: Tree, worktree: Tree) {
    && p in s.procs
    && var pc := s.procs[p];
    var tracked := TrackedNames(git, owned, snapshot);
    var first := Accepted(git, owned, Diff(head, snapshot));
    match pc
    case Idle => false
    case Locked(_) => false
    case Snapped(o, scratch) => o == owned && s.head == head && scratch == snapshot
    case Checked(o, scratch) => o == owned && s.head == head && scratch == snapshot && first
    case Updated(o, scratch, names) =>
      && o == owned && s.head == head && first && names == tracked && !UpdateRefused(snapshot, tracked)
      && scratch == AddTracked(snapshot, worktree, tracked)
    case Staged(o, scratch) =>
      && o == owned && s.head == head && first && !StagingRefused(git, owned, snapshot, worktree)
      && scratch == Stage(git, owned, snapshot, worktree)
    case Approved(o, scratch) =>
      o == owned && s.head == head && Transaction(git, owned, head, snapshot, worktree) == Committed(scratch)
    case Unsynced(o, tree) =>
      o == owned && s.head == tree && Transaction(git, owned, head, snapshot, worktree) == Committed(tree)
    case Closing(outcome) =>
      && Transaction(git, owned, head, snapshot, worktree) == outcome
      && s.head == if outcome.Committed? then outcome.tree else head
  }

  /** The atomic transaction, read off from how far the interleaved one got. */
  lemma TransactionByStages(git: Git, owned: set<Path>, head: Tree, snapshot: Tree, worktree: Tree)
    ensures var staged := Stage(git, owned, snapshot, worktree);
            var outcome := Transaction(git, owned, head, snapshot, worktree);
            && (!Accepted(git, owned, Diff(head, snapshot)) ==> outcome == Conflict)
            && (Accepted(git, owned, Diff(head, snapshot)) ==>
                  if StagingRefused(git, owned, snapshot, worktree) then outcome == Failed
                  else if Names(git, Diff(head, staged)) == {} then outcome == Skipped
                  else if !Accepted(git, owned, Diff(head, staged)) then outcome == Conflict
                  else outcome == Committed(staged))
    ensures Stage(git, owned, snapshot, worktree) ==
            var tracked := TrackedNames(git, owned, snapshot);
            AddUntracked(git, AddTracked(snapshot, worktree, tracked), worktree, Untracked(owned, tracked, worktree))
  {
  }

  /** The transaction has yet to look at the worktree. */
  predicate Reads(pc: Pc) {
    pc.Snapped? || pc.Checked? || pc.Updated?
  }

  /** Nobody edits the worktree between steps m and n, as long as process p has
      not added its files. */
  ghost predicate QuietUntilAdded(states: seq<State>, steps: seq<Step>, p: Proc, m: nat, n: nat)
    requires m <= n <= |steps| && |states| == |steps| + 1
  {
    forall k :: m <= k < n && NotAdded(steps, p, m, k) ==> states[k].worktree == states[m].worktree
  }

  ghost predicate NotAdded(steps: seq<Step>, p: Proc, m: nat, n: nat)
    requires n <= |steps|
  {
    forall j :: m <= j < n ==> steps[j] != AddExisting(p)
  }

  lemma ReadingMeansNotAdded(git: Git, s: State, step: Step, p: Proc)
    requires Inv(git, s) && Enabled(s, step) && p in s.procs && !s.procs[p].Idle? && !s.procs[p].Locked?
    requires step != Release(p) && step != Abandon(p)
    ensures p in Apply(git, s, step).procs
    ensures !Apply(git, s, step).procs[p].Idle? && !Apply(git, s, step).procs[p].Locked?
    ensures Reads(Apply(git, s, step).procs[p]) ==> Reads(s.procs[p]) && step != AddExisting(p)
  {
    HolderStays(git, s, step, p);
  }

  lemma TracksOwnStep(git: Git, s: State, step: Step, owned: set<Path>, head: Tree, snapshot: Tree, worktree: Tree)
    requires Enabled(s, step) && !Outside(step) && Tracks(git, s, step.p, owned, head, snapshot, worktree)
    requires Reads(s.procs[step.p]) ==> s.worktree == worktree
    requires !step.Release? && !step.Abandon?
    ensures Tracks(git, Apply(git, s, step), step.p, owned, head, snapshot, worktree)
  {
    TransactionByStages(git, owned, head, snapshot, worktree);
    match step {
      case CheckPreStaged(_) =>
      case UpdateTracked(_) =>
      case AddExisting(_) =>
      case CheckStaged(_) =>
      case CommitTree(_) =>
      case SyncIndex(_) =>
      case _ =>
    }
  }

  lemma TracksIsStable(
    git: Git, s: State, step: Step, p: Proc, owned: set<Path>, head: Tree, snapshot: Tree, worktree: Tree)
    requires Inv(git, s) && Enabled(s, step) && Tracks(git, s, p, owned, head, snapshot, worktree)
    requires Reads(s.procs[p]) ==> s.worktree == worktree
    requires step != Release(p) && step != Abandon(p)
    ensures Tracks(git, Apply(git, s, step), p, owned, head, snapshot, worktree)
  {
    HolderStays(git, s, step, p);
    if Outside(step) {
      assert Apply(git, s, step).procs == s.procs;
    } else {
      TracksOwnStep(git, s, step, owned, head, snapshot, worktree);
    }
  }

  lemma {:induction false} TracksAlongRuns(
    git: Git, states: seq<State>, steps: seq<Step>, p: Proc, owned: set<Path>,
    head: Tree, snapshot: Tree, worktree: Tree, from: nat, n: nat)
    requires IsRun(git, states, steps) && from < n < |states| && Holds(steps, p, from, n)
    requires Tracks(git, states[from + 1], p, owned, head, snapshot, worktree)
    requires steps[from] != AddExisting(p)
    requires QuietUntilAdded(states, steps, p, from, n) && worktree == states[from].worktree
    ensures Tracks(git, states[n], p, owned, head, snapshot, worktree)
    ensures Reads(states[n].procs[p]) ==> NotAdded(steps, p, from, n)
  {
    if from + 1 < n {
      TracksAlongRuns(git, states, steps, p, owned, head, snapshot, worktree, from, n - 1);
      InvariantHoldsAlongRuns(git, states, steps, n - 1);
      assert StepAt(git, states, steps, n - 1);
      ReadingMeansNotAdded(git, states[n - 1], steps[n - 1], p);
      TracksIsStable(git, states[n - 1], steps[n - 1], p, owned, head, snapshot, worktree);
    }
  }

  /** In every interleaving with outside index writers and other guarded
      commits, a transaction that runs to its release ends exactly as the atomic
      transaction on the HEAD and index of its snapshot, if nobody edits the
      worktree until it has added its files; what outsiders stage after the
      snapshot or edit after the add never enters. */
  lemma InterleavedTransactionIsAtomic(git: Git, states: seq<State>, steps: seq<Step>, p: Proc, from: nat, to: nat)
    requires IsRun(git, states, steps) && from < to < |steps|
    requires steps[from] == Snapshot(p) && steps[to] == Release(p) && Holds(steps, p, from, to)
    requires QuietUntilAdded(states, steps, p, from, to)
    ensures p in states[from].procs && states[from].procs[p].Locked?
    ensures p in states[to].procs && states[to].procs[p].Closing?
    ensures var owned, outcome := states[from].procs[p].owned, states[to].procs[p].outcome;
            && outcome == Transaction(git, owned, states[from].head, states[from].index, states[from].worktree)
            && states[to].head == if outcome.Committed? then outcome.tree else states[from].head
  {
    assert StepAt(git, states, steps, from);
    assert StepAt(git, states, steps, to);
    var owned := states[from].procs[p].owned;
    assert Tracks(git, states[from + 1], p, owned, states[from].head, states[from].index, states[from].worktree);
    TracksAlongRuns(git, states, steps, p, owned, states[from].head, states[from].index, states[from].worktree,
      from, to);
  }
}
