// The index files, rewritten and appended to by many processes, behave like
// one atomic index (command/history.go).
module LogIndex {
  import opened Wrappers
  import opened IndexRows
  import opened LogProtocol
  import opened LogInvariant

  /** What a reader without the lock gets: the rows of each listed file, read
      one file after the other while appends and renames go on. */
  ghost function ReadAt(states: seq<State>, paths: seq<string>, times: seq<nat>): (read: seq<seq<Row>>)
    requires |times| == |paths| && forall i :: 0 <= i < |times| ==> times[i] < |states|
    ensures |read| == |paths|
  {
    seq(|paths|, i requires 0 <= i < |paths| => RowsAt(states[times[i]].index, paths[i]))
  }

  /** The listing looks for each file at an instant of its own and finds the
      files that exist then. */
  ghost predicate Listing(states: seq<State>, paths: seq<string>, looked: string -> nat) {
    && (forall path :: looked(path) < |states|)
    && (forall i, j :: 0 <= i < j < |paths| ==> paths[i] != paths[j])
    && (forall path :: path in paths <==> path in states[looked(path)].index)
  }

  /** Whatever the order of the files and the instants they are looked for and
      read at, a reader's collapsed listing shows for each command exactly what
      the index shows at one instant of the reading: when the command's own file
      is read, or, for a file that did not exist yet, when it was looked for. */
  lemma ReadersAgree(
    cfg: Config, states: seq<State>, steps: seq<Step>, looked: string -> nat, paths: seq<string>, times: seq<nat>,
    id: string)
    requires IsRun(cfg, states, steps) && Listing(states, paths, looked)
    requires |times| == |paths| && forall i :: 0 <= i < |times| ==> looked(paths[i]) <= times[i] < |states|
    ensures forall row: Row :: row.id == id ==>
              (row in Collapse(Flatten(ReadAt(states, paths, times)))
               <==> Best(Flatten(ReadAt(states, paths, times)), id) == Some(row))
    ensures forall k :: 0 <= k < |paths| && paths[k] == cfg.home(id) ==>
              Best(Flatten(ReadAt(states, paths, times)), id) == Shown(cfg, states[times[k]], id)
    ensures cfg.home(id) !in paths ==>
              Best(Flatten(ReadAt(states, paths, times)), id) == Shown(cfg, states[looked(cfg.home(id))], id)
  {
    var read := ReadAt(states, paths, times);
    CollapseHasOneRowPerCommand(Flatten(read));
    forall i | 0 <= i < |paths| ensures Placed(cfg, paths[i], read[i]) {
      InvariantHoldsAlongRuns(cfg, states, steps, times[i]);
      RowsStayPlaced(cfg, states[times[i]], paths[i]);
    }
    BestAcrossFiles(cfg, paths, read, id);
  }

  lemma RowsStayPlaced(cfg: Config, s: State, path: string)
    requires Inv(cfg, s)
    ensures Placed(cfg, path, RowsAt(s.index, path))
  {
  }

  lemma BestAcrossFiles(cfg: Config, paths: seq<string>, read: seq<seq<Row>>, id: string)
    requires |read| == |paths|
    requires forall i, j :: 0 <= i < j < |paths| ==> paths[i] != paths[j]
    requires forall i :: 0 <= i < |read| ==> Placed(cfg, paths[i], read[i])
    ensures cfg.home(id) !in paths ==> Best(Flatten(read), id).None?
    ensures forall i :: 0 <= i < |paths| && paths[i] == cfg.home(id) ==> Best(Flatten(read), id) == Best(read[i], id)
  {
    forall i | 0 <= i < |paths| && paths[i] != cfg.home(id) ensures !Mentions(read[i], id) {
      PlacedMeansForeign(cfg, paths[i], read[i], id);
    }
    if cfg.home(id) !in paths {
      BestOfForeignFiles(read, id);
    }
    forall i | 0 <= i < |paths| && paths[i] == cfg.home(id) ensures Best(Flatten(read), id) == Best(read[i], id) {
      BestOfFlatten(read, i, id);
    }
  }

  lemma BestOfKeptRows(kept: seq<Row>, path: string, id: string)
    requires DistinctIds(kept)
    ensures forall k :: k in kept && k.id == id && k.index == path ==> Best(KeptIn(kept, path), id) == Some(k)
    ensures (forall k :: k in kept && k.index == path ==> k.id != id) ==> Best(KeptIn(kept, path), id).None?
  {
    var rows := KeptIn(kept, path);
    KeptInHolds(kept, path);
    KeptInStaysDistinct(kept, path);
    forall k | k in kept && k.id == id && k.index == path ensures Best(rows, id) == Some(k) {
      assert k in rows;
      var i :| 0 <= i < |rows| && rows[i] == k;
      BestOfUnique(rows, i);
    }
    if forall k :: k in kept && k.index == path ==> k.id != id {
      BestNamesItsCommand(rows, id);
    }
  }

  /** While a cleanup renames file by file, a command keeps showing its
      snapshot row until its file is replaced, and afterwards exactly if the
      row was kept. */
  lemma ShownWhilePruning(cfg: Config, index: map<string, seq<Row>>, pc: Pc, id: string)
    requires pc.Pruning? && PruningCurrent(cfg, index, pc)
    ensures var believed, shown := Best(Flatten(pc.read), id), Best(RowsAt(index, cfg.home(id)), id);
            && (believed.None? ==> shown.None?)
            && (believed.Some? && (cfg.home(id) in pc.renaming || believed.value in pc.plan.kept) ==> shown == believed)
            && (believed.Some? && cfg.home(id) !in pc.renaming && believed.value !in pc.plan.kept ==> shown.None?)
  {
    var rows, home := Flatten(pc.read), cfg.home(id);
    BestAcrossFiles(cfg, pc.paths, pc.read, id);
    if home in pc.paths {
      var i :| 0 <= i < |pc.paths| && pc.paths[i] == home;
      if home !in pc.renaming && pc.read[i] != [] {
        KeptRowsAreShown(Collapse(rows), rows, pc.plan);
        BestOfKeptRows(pc.plan.kept, home, id);
        forall k | k in pc.plan.kept && k.id == id ensures k.index == home {
          SnapshotRowsPlaced(cfg, pc.paths, pc.read, k);
        }
        if Best(rows, id).Some? { BestNamesItsCommand(rows, id); }
      }
    }
  }

  ghost predicate Drops(plan: Plan, id: string) {
    exists d :: d in plan.dropped && d.id == id
  }

  /** The atomic index this protocol implements: an append absorbs its row, and
      replacing a command's file forgets the command if it was dropped. */
  ghost function AtomicStep(cfg: Config, s: State, step: Step, id: string, shown: Option<Row>): Option<Row>
    requires Enabled(cfg, s, step)
  {
    if step.AppendRow? then Absorb(shown, s.procs[step.p].pc.rec.row, id)
    else if step.RenameIndex? && step.path == cfg.home(id) && Drops(s.procs[step.p].pc.plan, id) then None
    else shown
  }

  lemma StepRefinesAtomicIndex(cfg: Config, s: State, step: Step, id: string)
    requires Inv(cfg, s) && Enabled(cfg, s, step)
    ensures Shown(cfg, Apply(cfg, s, step), id) == AtomicStep(cfg, s, step, id, Shown(cfg, s, id))
  {
    var t := Apply(cfg, s, step);
    if step.AppendRow? {
      var row := s.procs[step.p].pc.rec.row;
      var rows := RowsAt(s.index, row.index);
      assert (rows + [row])[..|rows + [row]| - 1] == rows;
    } else if step.RenameIndex? {
      var pc := s.procs[step.p].pc;
      PreservesSnapshots(cfg, s, step);
      var next := t.procs[step.p].pc;
      ShownWhilePruning(cfg, s.index, pc, id);
      ShownWhilePruning(cfg, t.index, next, id);
      DroppedOrKept(pc, id);
    } else if step.CreateIndex? {
      assert RowsAt(t.index, cfg.home(id)) == RowsAt(s.index, cfg.home(id));
    } else {
      CleanupMovesOnItsOwnSteps(cfg, s, step);
    }
  }

  lemma DroppedOrKept(pc: Pc, id: string)
    requires pc.Pruning?
    requires Retention(Collapse(Flatten(pc.read)), pc.plan.cutoff, pc.plan.maxRecords, pc.plan.kept, pc.plan.dropped)
    ensures var believed := Best(Flatten(pc.read), id);
            && (Drops(pc.plan, id) <==> believed.Some? && believed.value !in pc.plan.kept)
            && (Drops(pc.plan, id) ==> believed.value in pc.plan.dropped)
  {
    var rows := Flatten(pc.read);
    var commands := Collapse(rows);
    CollapseHasOneRowPerCommand(rows);
    RetentionPartitionsCommands(commands, pc.plan.cutoff, pc.plan.maxRecords, pc.plan.kept, pc.plan.dropped);
    KeptRowsAreShown(commands, rows, pc.plan);
    BestNamesItsCommand(rows, id);
    if Drops(pc.plan, id) {
      var d :| d in pc.plan.dropped && d.id == id;
      assert d in commands && Best(rows, d.id) == Some(d);
    }
  }

  /** A command disappears from the collapsed index only in a cleanup's rename,
      and only because the retention rules said so: its row was past the cutoff,
      or the limit is used up by commands at least as new, all still shown. */
  lemma OnlyRetentionForgets(cfg: Config, s: State, step: Step, id: string)
    requires Inv(cfg, s) && Enabled(cfg, s, step)
    requires Shown(cfg, s, id).Some? && Shown(cfg, Apply(cfg, s, step), id).None?
    ensures step.RenameIndex?
    ensures var plan, row := s.procs[step.p].pc.plan, Shown(cfg, s, id).value;
            && row in plan.dropped
            && (Expired(row, plan.cutoff) || Crowded(row, plan.maxRecords, plan.kept))
            && forall k :: k in plan.kept ==> Shown(cfg, Apply(cfg, s, step), k.id) == Some(k)
  {
    StepRefinesAtomicIndex(cfg, s, step, id);
    var t := Apply(cfg, s, step);
    var pc := s.procs[step.p].pc;
    var rows := Flatten(pc.read);
    DroppedOrKept(pc, id);
    ShownWhilePruning(cfg, s.index, pc, id);
    PreservesSnapshots(cfg, s, step);
    KeptRowsAreShown(Collapse(rows), rows, pc.plan);
    forall k | k in pc.plan.kept ensures Shown(cfg, t, k.id) == Some(k) {
      ShownWhilePruning(cfg, t.index, t.procs[step.p].pc, k.id);
    }
  }

  /** The whole run seen through the atomic index. */
  ghost function Replay(cfg: Config, states: seq<State>, steps: seq<Step>, n: nat, id: string): Option<Row>
    requires IsRun(cfg, states, steps) && n < |states|
  {
    if n == 0 then None
    else
      assert StepAt(cfg, states, steps, n - 1);
      AtomicStep(cfg, states[n - 1], steps[n - 1], id, Replay(cfg, states, steps, n - 1, id))
  }

  /** Refinement over whole runs: at every point, every command shows what
      the atomic index would show. */
  lemma {:induction false} RunRefinesAtomicIndex(cfg: Config, states: seq<State>, steps: seq<Step>, n: nat, id: string)
    requires IsRun(cfg, states, steps) && n < |states|
    ensures Shown(cfg, states[n], id) == Replay(cfg, states, steps, n, id)
  {
    if n > 0 {
      RunRefinesAtomicIndex(cfg, states, steps, n - 1, id);
      InvariantHoldsAlongRuns(cfg, states, steps, n - 1);
      assert StepAt(cfg, states, steps, n - 1);
      StepRefinesAtomicIndex(cfg, states[n - 1], steps[n - 1], id);
    }
  }

  /** The retention drop of a command by one step. */
  ghost predicate ForgetsBy(cfg: Config, s: State, step: Step, id: string) {
    && Enabled(cfg, s, step) && step.RenameIndex? && Shown(cfg, s, id).Some?
    && var plan, row := s.procs[step.p].pc.plan, Shown(cfg, s, id).value;
       row in plan.dropped && (Expired(row, plan.cutoff) || Crowded(row, plan.maxRecords, plan.kept))
  }

  /** One step keeps a command listed, unless it is the retention drop. */
  lemma ListedUnlessForgotten(cfg: Config, s: State, step: Step, id: string)
    requires Inv(cfg, s) && Enabled(cfg, s, step)
    requires Shown(cfg, s, id).Some? || (step.AppendRow? && s.procs[step.p].pc.rec.row.id == id)
    ensures Shown(cfg, Apply(cfg, s, step), id).Some? || ForgetsBy(cfg, s, step, id)
  {
    StepRefinesAtomicIndex(cfg, s, step, id);
    if Shown(cfg, Apply(cfg, s, step), id).None? {
      OnlyRetentionForgets(cfg, s, step, id);
    }
  }

  /** No appended row is ever lost to a concurrent rewrite: from its append on,
      the command is listed until some cleanup's own retention drops it. */
  lemma {:induction false} AppendedRowsAreNeverLost(
    cfg: Config, states: seq<State>, steps: seq<Step>, appended: nat, n: nat, id: string)
    requires IsRun(cfg, states, steps) && appended < n < |states|
    requires steps[appended].AppendRow? && AppendedRow(cfg, states, steps, appended).id == id
    ensures Shown(cfg, states[n], id).Some?
            || exists m :: appended < m < n && ForgetsBy(cfg, states[m], steps[m], id)
  {
    var last := n - 1;
    InvariantHoldsAlongRuns(cfg, states, steps, last);
    assert StepAt(cfg, states, steps, last);
    if last == appended {
      ListedUnlessForgotten(cfg, states[last], steps[last], id);
      assert !ForgetsBy(cfg, states[last], steps[last], id);
    } else {
      AppendedRowsAreNeverLost(cfg, states, steps, appended, last, id);
      if Shown(cfg, states[last], id).Some? {
        ListedUnlessForgotten(cfg, states[last], steps[last], id);
        assert appended < last < n;
      }
    }
  }

  /** The command's terminal put is under way or over and the index does not
      show it as running. */
  ghost predicate IndexSealed(cfg: Config, s: State, id: string) {
    Ended(s, id) && (Shown(cfg, s, id).Some? ==> IsTerminal(Shown(cfg, s, id).value.status))
  }

  lemma IndexSealedIsStable(cfg: Config, s: State, step: Step, id: string)
    requires Inv(cfg, s) && Enabled(cfg, s, step) && IndexSealed(cfg, s, id)
    ensures IndexSealed(cfg, Apply(cfg, s, step), id)
  {
    StepRefinesAtomicIndex(cfg, s, step, id);
  }

  lemma TerminalAppendSeals(cfg: Config, s: State, step: Step)
    requires Inv(cfg, s) && Enabled(cfg, s, step) && step.AppendRow? && IsTerminal(s.procs[step.p].pc.rec.row.status)
    ensures IndexSealed(cfg, Apply(cfg, s, step), s.procs[step.p].pc.rec.row.id)
  {
    var id := s.procs[step.p].pc.rec.row.id;
    StepRefinesAtomicIndex(cfg, s, step, id);
    BestNamesItsCommand(RowsAt(Apply(cfg, s, step).index, cfg.home(id)), id);
  }

  /** Once a terminal row is appended, the collapsed index never again shows the
      command as running. */
  lemma {:induction false} TerminalRowsStayTerminal(
    cfg: Config, states: seq<State>, steps: seq<Step>, appended: nat, n: nat, id: string)
    requires IsRun(cfg, states, steps) && appended < n < |states|
    requires steps[appended].AppendRow? && AppendedRow(cfg, states, steps, appended).id == id
    requires AppendedRow(cfg, states, steps, appended).status !in {"", "running"}
    ensures IndexSealed(cfg, states[n], id)
    ensures Shown(cfg, states[n], id).Some? ==> Shown(cfg, states[n], id).value.status !in {"", "running"}
  {
    InvariantHoldsAlongRuns(cfg, states, steps, n - 1);
    assert StepAt(cfg, states, steps, n - 1);
    if n - 1 == appended {
      TerminalAppendSeals(cfg, states[appended], steps[appended]);
    } else {
      TerminalRowsStayTerminal(cfg, states, steps, appended, n - 1, id);
      IndexSealedIsStable(cfg, states[n - 1], steps[n - 1], id);
    }
  }
}
