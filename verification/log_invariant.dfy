// What every step of the command log protocol keeps (command/history.go,
// command/history_lock.go).
module LogInvariant {
  import opened Wrappers
  import opened IndexRows
  import opened LogProtocol

  ghost predicate MutualExclusion(s: State) {
    && (forall p :: p in s.procs ==> (HoldsLock(s.procs[p].pc) <==> s.lock == Some(p)))
    && (s.lock.Some? ==> s.lock.value in s.procs)
  }

  ghost predicate Placed(cfg: Config, path: string, rows: seq<Row>) {
    forall r :: r in rows ==> r.index == path && cfg.home(r.id) == path
  }

  ghost predicate RowsPlaced(cfg: Config, s: State) {
    && (forall path :: path in s.index ==> Placed(cfg, path, s.index[path]))
    && (forall p :: p in s.procs && Putting(s.procs[p].pc) ==>
          s.procs[p].pc.rec.row.index == cfg.home(s.procs[p].pc.rec.row.id))
  }

  /** A cleanup that is still reading has read the files as they are now. */
  ghost predicate ReadingCurrent(index: map<string, seq<Row>>, paths: seq<string>, read: seq<seq<Row>>) {
    && Lists(paths, index) && |read| <= |paths|
    && forall i :: 0 <= i < |read| ==> read[i] == RowsAt(index, paths[i])
  }

  /** A deciding cleanup's snapshot is the index, up to the files it has itself
      replaced by their kept rows. */
  ghost predicate PruningCurrent(cfg: Config, index: map<string, seq<Row>>, pc: Pc)
    requires pc.Pruning?
  {
    && Lists(pc.paths, index) && |pc.read| == |pc.paths|
    && (forall i :: 0 <= i < |pc.read| ==> Placed(cfg, pc.paths[i], pc.read[i]))
    && (forall i :: 0 <= i < |pc.read| ==>
          RowsAt(index, pc.paths[i]) ==
          if pc.paths[i] in pc.renaming || pc.read[i] == [] then pc.read[i] else KeptIn(pc.plan.kept, pc.paths[i]))
    && (forall path :: path in pc.renaming ==> path in pc.paths)
    && Retention(Collapse(Flatten(pc.read)), pc.plan.cutoff, pc.plan.maxRecords, pc.plan.kept, pc.plan.dropped)
  }

  ghost predicate SnapshotsCurrent(cfg: Config, s: State) {
    forall p :: p in s.procs ==>
                  && (s.procs[p].pc.Reading? ==> ReadingCurrent(s.index, s.procs[p].pc.paths, s.procs[p].pc.read))
                  && (s.procs[p].pc.Pruning? ==> PruningCurrent(cfg, s.index, s.procs[p].pc))
  }

  /** A pending put is the one its command's life says is under way. */
  ghost predicate PutsOwned(s: State) {
    forall p :: p in s.procs && Putting(s.procs[p].pc) ==> PutOwned(s, p, s.procs[p].pc.rec)
  }

  ghost predicate PutOwned(s: State, p: Proc, rec: Record) {
    && (Terminal(rec) || rec.row.status == "running")
    && rec.row.id in s.life
    && s.life[rec.row.id] == if Terminal(rec) then Finishing(p) else Announcing(p)
  }

  /** A record under its own id, either running or finished. */
  predicate Named(rec: Record, id: string) {
    rec.row.id == id && (Terminal(rec) || rec.row.status == "running")
  }

  ghost predicate FilesSound(s: State) {
    forall id :: id in s.files ==> Named(s.files[id], id) && (Terminal(s.files[id]) ==> Ended(s, id))
  }

  ghost predicate CachesNamed(s: State) {
    forall p, id :: p in s.procs && id in s.procs[p].cache ==> Named(s.procs[p].cache[id], id)
  }

  ghost predicate LifeConsistent(s: State) {
    PutsOwned(s) && FilesSound(s) && CachesNamed(s)
  }

  /** The terminal put of the command has begun. */
  ghost predicate Ended(s: State, id: string) {
    id in s.life && (s.life[id].Finishing? || s.life[id].Finished?)
  }

  /** No lookup can find a running record file for the command again. */
  ghost predicate Sealed(s: State, id: string) {
    Ended(s, id) && (id in s.files ==> Terminal(s.files[id]))
  }

  /** Process p can only ever report the command as finished or unknown. */
  ghost predicate Settled(s: State, p: Proc, id: string)
    requires p in s.procs
  {
    Sealed(s, id) && (id in s.procs[p].cache ==> Terminal(s.procs[p].cache[id]))
  }

  ghost predicate CallSound(s: State, p: Proc, call: Call)
    requires p in s.procs
  {
    && (KnownTerminal(call.cached) ==> Settled(s, p, call.id))
    && (call.durable.Loaded? && KnownTerminal(call.durable.rec) ==> Sealed(s, call.id))
    && (call.cached.Some? ==> Named(call.cached.value, call.id))
    && (call.durable.Loaded? && call.durable.rec.Some? ==> Named(call.durable.rec.value, call.id))
  }

  ghost predicate CachesSealed(s: State) {
    forall p, id :: p in s.procs && id in s.procs[p].cache && Terminal(s.procs[p].cache[id]) ==> Sealed(s, id)
  }

  ghost predicate PutsSealed(s: State) {
    forall p :: p in s.procs && Putting(s.procs[p].pc) && !s.procs[p].pc.Writing? && Terminal(s.procs[p].pc.rec) ==>
                  Sealed(s, s.procs[p].pc.rec.row.id)
  }

  ghost predicate CallsSound(s: State) {
    forall p, c :: p in s.procs && c in s.procs[p].calls ==> CallSound(s, p, s.procs[p].calls[c])
  }

  ghost predicate TerminalSeals(s: State) {
    CachesSealed(s) && PutsSealed(s) && CallsSound(s)
  }

  ghost predicate Inv(cfg: Config, s: State) {
    && MutualExclusion(s) && RowsPlaced(cfg, s) && SnapshotsCurrent(cfg, s)
    && LifeConsistent(s) && TerminalSeals(s)
  }

  // -------------------------------------------------------------------------
  // Files, rows and collapsing

  /** Files that never mention a command contribute nothing to what is shown. */
  lemma {:induction false} BestOfForeignFiles(read: seq<seq<Row>>, id: string)
    requires forall i :: 0 <= i < |read| ==> !Mentions(read[i], id)
    ensures Best(Flatten(read), id).None?
  {
    if read != [] {
      var n := |read| - 1;
      BestOfForeignFiles(read[..n], id);
      BestSkipsForeignRows(Flatten(read[..n]), read[n], id);
    }
  }

  /** Reading every index file in any order shows what the home file shows. */
  lemma {:induction false} BestOfFlatten(read: seq<seq<Row>>, home: nat, id: string)
    requires home < |read|
    requires forall i :: 0 <= i < |read| && i != home ==> !Mentions(read[i], id)
    ensures Best(Flatten(read), id) == Best(read[home], id)
  {
    var n := |read| - 1;
    if home == n {
      BestOfForeignFiles(read[..n], id);
      BestOfConcat(Flatten(read[..n]), [], read[n], id);
      assert [] + read[n] == read[n];
    } else {
      BestOfFlatten(read[..n], home, id);
      BestSkipsForeignRows(Flatten(read[..n]), read[n], id);
    }
  }

  lemma PlacedMeansForeign(cfg: Config, path: string, rows: seq<Row>, id: string)
    requires Placed(cfg, path, rows) && cfg.home(id) != path
    ensures !Mentions(rows, id)
  {
  }

  lemma {:induction false} FlattenHolds(read: seq<seq<Row>>, row: Row)
    ensures row in Flatten(read) <==> exists i :: 0 <= i < |read| && row in read[i]
  {
    if read != [] {
      var n := |read| - 1;
      FlattenHolds(read[..n], row);
      if row in Flatten(read[..n]) {
        var i :| 0 <= i < n && row in read[..n][i];
        assert row in read[i];
      }
      if i :| 0 <= i < |read| && row in read[i] {
        if i < n { assert row in read[..n][i]; }
      }
    }
  }

  lemma {:induction false} KeptInHolds(kept: seq<Row>, path: string)
    ensures forall r :: r in KeptIn(kept, path) <==> r in kept && r.index == path
  {
    if kept != [] {
      KeptInHolds(kept[..|kept| - 1], path);
      assert kept == kept[..|kept| - 1] + [kept[|kept| - 1]];
    }
  }

  /** An index file's kept rows keep their order: one row is kept if it names
      the file, and of two stretches those of the first come first. */
  lemma {:induction false} KeptInKeepsOrder(a: seq<Row>, b: seq<Row>, path: string)
    ensures |a| == 1 ==> KeptIn(a, path) == if a[0].index == path then a else []
    ensures KeptIn(a + b, path) == KeptIn(a, path) + KeptIn(b, path)
  {
    if |a| == 1 { assert KeptIn(a[..0], path) == []; }
    if b == [] {
      assert a + b == a;
    } else {
      KeptInKeepsOrder(a, b[..|b| - 1], path);
      assert (a + b)[..|a + b| - 1] == a + b[..|b| - 1];
    }
  }

  lemma {:induction false} KeptInStaysDistinct(kept: seq<Row>, path: string)
    requires DistinctIds(kept)
    ensures DistinctIds(KeptIn(kept, path))
  {
    if kept != [] {
      var front, last := kept[..|kept| - 1], kept[|kept| - 1];
      KeptInStaysDistinct(front, path);
      KeptInHolds(front, path);
      var rows := KeptIn(front, path);
      forall i | 0 <= i < |rows| ensures rows[i].id != last.id {
        assert rows[i] in front;
        var k :| 0 <= k < |front| && front[k] == rows[i];
        assert kept[k] == rows[i];
      }
    }
  }

  // -------------------------------------------------------------------------
  // Preservation

  /** The lock is entered only when free, and every other step keeps or
      returns it. */
  lemma LockIsEnteredWhenFree(cfg: Config, s: State, step: Step)
    requires MutualExclusion(s) && Enabled(cfg, s, step)
    ensures HoldsLock(NextPc(cfg, s, step)) ==> s.lock.None? || s.lock == Some(step.p)
  {
  }

  lemma PreservesMutualExclusion(cfg: Config, s: State, step: Step)
    requires MutualExclusion(s) && Enabled(cfg, s, step)
    ensures MutualExclusion(Apply(cfg, s, step))
  {
    LockIsEnteredWhenFree(cfg, s, step);
    var t := Apply(cfg, s, step);
    forall p | p in t.procs ensures HoldsLock(t.procs[p].pc) <==> t.lock == Some(p) {
      if p != step.p { assert t.procs[p] == s.procs[p]; }
    }
  }

  lemma PreservesPutsOwned(cfg: Config, s: State, step: Step)
    requires PutsOwned(s) && Enabled(cfg, s, step)
    ensures PutsOwned(Apply(cfg, s, step))
  {
    var t := Apply(cfg, s, step);
    forall p | p in t.procs && Putting(t.procs[p].pc) ensures PutOwned(t, p, t.procs[p].pc.rec) {
      if p == step.p {
        OwnPutStaysOwned(cfg, s, step);
      } else {
        OthersLeaveLifeAlone(cfg, s, step, p);
      }
    }
  }

  lemma OwnPutStaysOwned(cfg: Config, s: State, step: Step)
    requires PutsOwned(s) && Enabled(cfg, s, step) && Putting(NextPc(cfg, s, step))
    ensures PutOwned(Apply(cfg, s, step), step.p, NextPc(cfg, s, step).rec)
  {
    if !step.BeginPut? {
      PutKeepsItsRecord(cfg, s, step);
      assert PutOwned(s, step.p, s.procs[step.p].pc.rec);
    }
  }

  lemma PutKeepsItsRecord(cfg: Config, s: State, step: Step)
    requires Enabled(cfg, s, step) && Putting(NextPc(cfg, s, step)) && !step.BeginPut?
    ensures Putting(s.procs[step.p].pc) && NextPc(cfg, s, step).rec == s.procs[step.p].pc.rec
    ensures NextLife(cfg, s, step) == s.life
  {
  }

  lemma OthersLeaveLifeAlone(cfg: Config, s: State, step: Step, p: Proc)
    requires PutsOwned(s) && Enabled(cfg, s, step)
    requires p in s.procs && p != step.p && Putting(s.procs[p].pc)
    ensures PutOwned(Apply(cfg, s, step), p, s.procs[p].pc.rec)
  {
    var id := s.procs[p].pc.rec.row.id;
    assert PutOwned(s, p, s.procs[p].pc.rec);
    assert NextLife(cfg, s, step) != s.life ==> step.BeginPut? || PutOwned(s, step.p, s.procs[step.p].pc.rec);
    assert id in NextLife(cfg, s, step) && NextLife(cfg, s, step)[id] == s.life[id];
  }

  lemma PreservesFilesSound(cfg: Config, s: State, step: Step)
    requires PutsOwned(s) && FilesSound(s) && Enabled(cfg, s, step)
    ensures FilesSound(Apply(cfg, s, step))
  {
    var t := Apply(cfg, s, step);
    forall id | id in t.files ensures Named(t.files[id], id) && (Terminal(t.files[id]) ==> Ended(t, id)) {
      if Ended(s, id) { EndedIsStable(cfg, s, step, id); }
      if step.WriteFile? { assert PutOwned(s, step.p, s.procs[step.p].pc.rec); }
    }
  }

  lemma EndedIsStable(cfg: Config, s: State, step: Step, id: string)
    requires Enabled(cfg, s, step) && PutsOwned(s) && Ended(s, id)
    ensures Ended(Apply(cfg, s, step), id)
  {
    if step.CachePut? || step.FailPut? { assert PutOwned(s, step.p, s.procs[step.p].pc.rec); }
  }

  lemma PreservesCachesNamed(cfg: Config, s: State, step: Step)
    requires LifeConsistent(s) && TerminalSeals(s) && Enabled(cfg, s, step)
    ensures CachesNamed(Apply(cfg, s, step))
  {
    var t := Apply(cfg, s, step);
    forall p, id | p in t.procs && id in t.procs[p].cache ensures Named(t.procs[p].cache[id], id) {
      if p != step.p { assert t.procs[p] == s.procs[p]; }
    }
  }

  lemma SealedIsStable(cfg: Config, s: State, step: Step, id: string)
    requires LifeConsistent(s) && Enabled(cfg, s, step) && Sealed(s, id)
    ensures Sealed(Apply(cfg, s, step), id)
  {
  }

  lemma SettledIsStable(cfg: Config, s: State, step: Step, p: Proc, id: string)
    requires LifeConsistent(s) && TerminalSeals(s) && Enabled(cfg, s, step)
    requires p in s.procs && Settled(s, p, id)
    ensures p in Apply(cfg, s, step).procs && Settled(Apply(cfg, s, step), p, id)
  {
    SealedIsStable(cfg, s, step, id);
  }

  lemma PreservesCachesSealed(cfg: Config, s: State, step: Step)
    requires LifeConsistent(s) && TerminalSeals(s) && Enabled(cfg, s, step)
    ensures CachesSealed(Apply(cfg, s, step))
  {
    var t := Apply(cfg, s, step);
    forall p, id | p in t.procs && id in t.procs[p].cache && Terminal(t.procs[p].cache[id]) ensures Sealed(t, id) {
      if Sealed(s, id) {
        SealedIsStable(cfg, s, step, id);
      }
    }
  }

  lemma PreservesPutsSealed(cfg: Config, s: State, step: Step)
    requires LifeConsistent(s) && TerminalSeals(s) && Enabled(cfg, s, step)
    ensures PutsSealed(Apply(cfg, s, step))
  {
    var t := Apply(cfg, s, step);
    forall p | p in t.procs && Putting(t.procs[p].pc) && !t.procs[p].pc.Writing? && Terminal(t.procs[p].pc.rec)
      ensures Sealed(t, t.procs[p].pc.rec.row.id)
    {
      if Sealed(s, t.procs[p].pc.rec.row.id) {
        SealedIsStable(cfg, s, step, t.procs[p].pc.rec.row.id);
      }
    }
  }

  lemma PreservesCallSound(cfg: Config, s: State, step: Step, p: Proc, c: CallId)
    requires LifeConsistent(s) && TerminalSeals(s) && Enabled(cfg, s, step)
    requires p in s.procs && p in Apply(cfg, s, step).procs && c in Apply(cfg, s, step).procs[p].calls
    ensures CallSound(Apply(cfg, s, step), p, Apply(cfg, s, step).procs[p].calls[c])
  {
    var t := Apply(cfg, s, step);
    var call := t.procs[p].calls[c];
    if Sealed(s, call.id) { SealedIsStable(cfg, s, step, call.id); }
    if Settled(s, p, call.id) { SettledIsStable(cfg, s, step, p, call.id); }
    if c in s.procs[p].calls && !(step.StartGet? && step.p == p && step.c == c) {
      assert CallSound(s, p, s.procs[p].calls[c]);
    }
  }

  lemma PreservesRowsPlaced(cfg: Config, s: State, step: Step)
    requires RowsPlaced(cfg, s) && SnapshotsCurrent(cfg, s) && Enabled(cfg, s, step)
    ensures RowsPlaced(cfg, Apply(cfg, s, step))
  {
    var t := Apply(cfg, s, step);
    forall path | path in t.index ensures Placed(cfg, path, t.index[path]) {
      IndexStaysPlaced(cfg, s, step, path);
    }
    forall p | p in t.procs && Putting(t.procs[p].pc)
      ensures t.procs[p].pc.rec.row.index == cfg.home(t.procs[p].pc.rec.row.id)
    {
      if p != step.p {
        assert t.procs[p] == s.procs[p];
      } else if !step.BeginPut? {
        assert t.procs[p].pc.rec == s.procs[p].pc.rec;
      }
    }
  }

  lemma IndexStaysPlaced(cfg: Config, s: State, step: Step, path: string)
    requires RowsPlaced(cfg, s) && SnapshotsCurrent(cfg, s) && Enabled(cfg, s, step)
    requires path in NextIndex(cfg, s, step)
    ensures Placed(cfg, path, NextIndex(cfg, s, step)[path])
  {
    if step.RenameIndex? {
      KeptRowsComeFromTheirFile(cfg, s.procs[step.p].pc, step.path);
    }
  }

  /** A row of the snapshot was read from its command's own file. */
  lemma SnapshotRowsPlaced(cfg: Config, paths: seq<string>, read: seq<seq<Row>>, row: Row)
    requires |read| == |paths|
    requires forall i :: 0 <= i < |read| ==> Placed(cfg, paths[i], read[i])
    requires row in Flatten(read)
    ensures row.index in paths && cfg.home(row.id) == row.index
    ensures exists i :: 0 <= i < |paths| && paths[i] == row.index && row in read[i]
  {
    FlattenHolds(read, row);
    var i :| 0 <= i < |read| && row in read[i];
    assert paths[i] == row.index;
  }

  lemma KeptRowsAreShown(commands: seq<Row>, rows: seq<Row>, plan: Plan)
    requires commands == Collapse(rows)
    requires Retention(commands, plan.cutoff, plan.maxRecords, plan.kept, plan.dropped)
    ensures forall k :: k in plan.kept ==> k in rows && Best(rows, k.id) == Some(k)
    ensures forall id :: Best(rows, id).Some? ==>
        Best(rows, id).value in plan.kept || Best(rows, id).value in plan.dropped
    ensures DistinctIds(plan.kept)
  {
    CollapseHasOneRowPerCommand(rows);
    RetentionPartitionsCommands(commands, plan.cutoff, plan.maxRecords, plan.kept, plan.dropped);
    forall k | k in plan.kept ensures k in rows && Best(rows, k.id) == Some(k) {
      assert k in commands;
      BestNamesItsCommand(rows, k.id);
    }
    forall id | Best(rows, id).Some? ensures Best(rows, id).value in plan.kept || Best(rows, id).value in plan.dropped {
      BestNamesItsCommand(rows, id);
      assert Best(rows, id).value in commands;
    }
  }

  lemma KeptRowsComeFromTheirFile(cfg: Config, pc: Pc, path: string)
    requires pc.Pruning? && |pc.read| == |pc.paths|
    requires forall i :: 0 <= i < |pc.read| ==> Placed(cfg, pc.paths[i], pc.read[i])
    requires Retention(Collapse(Flatten(pc.read)), pc.plan.cutoff, pc.plan.maxRecords, pc.plan.kept, pc.plan.dropped)
    ensures Placed(cfg, path, KeptIn(pc.plan.kept, path))
  {
    var rows := Flatten(pc.read);
    KeptInHolds(pc.plan.kept, path);
    KeptRowsAreShown(Collapse(rows), rows, pc.plan);
    forall r | r in KeptIn(pc.plan.kept, path) ensures r.index == path && cfg.home(r.id) == path {
      SnapshotRowsPlaced(cfg, pc.paths, pc.read, r);
    }
  }

  /** The lock keeps everyone else away from the index of a cleaning process. */
  lemma OthersLeaveTheIndexAlone(cfg: Config, s: State, step: Step, p: Proc)
    requires MutualExclusion(s) && Enabled(cfg, s, step)
    requires p in s.procs && p != step.p && HoldsLock(s.procs[p].pc)
    ensures Apply(cfg, s, step).index == s.index
    ensures p in Apply(cfg, s, step).procs && Apply(cfg, s, step).procs[p] == s.procs[p]
  {
  }

  predicate WritesIndex(step: Step) {
    step.CreateIndex? || step.AppendRow? || step.RenameIndex?
  }

  /** Between its own reads and renames a cleaning process keeps its place. */
  lemma CleanupMovesOnItsOwnSteps(cfg: Config, s: State, step: Step)
    requires Enabled(cfg, s, step) && !WritesIndex(step)
    ensures var t := Apply(cfg, s, step);
            && step.p in t.procs && t.index == s.index
            && (t.procs[step.p].pc.Reading? && !step.LockCleanup? && !step.ReadIndex? ==>
                  t.procs[step.p].pc == s.procs[step.p].pc)
            && (t.procs[step.p].pc.Pruning? && !step.Decide? && !step.RemoveEntry? ==>
                  t.procs[step.p].pc == s.procs[step.p].pc)
  {
  }

  lemma PreservesReading(cfg: Config, s: State, step: Step)
    requires SnapshotsCurrent(cfg, s) && Enabled(cfg, s, step)
    ensures var t := Apply(cfg, s, step);
            step.p in t.procs
                && (t.procs[step.p].pc.Reading? ==>
                    ReadingCurrent(t.index, t.procs[step.p].pc.paths, t.procs[step.p].pc.read))
  {
    if !WritesIndex(step) {
      CleanupMovesOnItsOwnSteps(cfg, s, step);
    }
  }

  lemma PreservesPruning(cfg: Config, s: State, step: Step)
    requires RowsPlaced(cfg, s) && SnapshotsCurrent(cfg, s) && Enabled(cfg, s, step)
    ensures var t := Apply(cfg, s, step);
            step.p in t.procs && (t.procs[step.p].pc.Pruning? ==> PruningCurrent(cfg, t.index, t.procs[step.p].pc))
  {
    if step.Decide? {
      DecidingIsCurrent(cfg, s, step);
    } else if step.RenameIndex? {
      RenamingIsCurrent(cfg, s, step);
    } else if step.RemoveEntry? {
      assert PruningCurrent(cfg, s.index, s.procs[step.p].pc);
    } else if !WritesIndex(step) {
      CleanupMovesOnItsOwnSteps(cfg, s, step);
    }
  }

  lemma PreservesSnapshots(cfg: Config, s: State, step: Step)
    requires MutualExclusion(s) && RowsPlaced(cfg, s) && SnapshotsCurrent(cfg, s) && Enabled(cfg, s, step)
    ensures SnapshotsCurrent(cfg, Apply(cfg, s, step))
  {
    PreservesReading(cfg, s, step);
    PreservesPruning(cfg, s, step);
    var t := Apply(cfg, s, step);
    forall p | p in t.procs
      ensures t.procs[p].pc.Reading? ==> ReadingCurrent(t.index, t.procs[p].pc.paths, t.procs[p].pc.read)
      ensures t.procs[p].pc.Pruning? ==> PruningCurrent(cfg, t.index, t.procs[p].pc)
    {
      if p != step.p && HoldsLock(s.procs[p].pc) {
        OthersLeaveTheIndexAlone(cfg, s, step, p);
      }
    }
  }

  lemma DecidingIsCurrent(cfg: Config, s: State, step: Step)
    requires RowsPlaced(cfg, s) && SnapshotsCurrent(cfg, s) && Enabled(cfg, s, step) && step.Decide?
    ensures PruningCurrent(cfg, Apply(cfg, s, step).index, Apply(cfg, s, step).procs[step.p].pc)
  {
    var pc := s.procs[step.p].pc;
    var t := Apply(cfg, s, step);
    var next := t.procs[step.p].pc;
    forall i | 0 <= i < |pc.read|
      ensures Placed(cfg, pc.paths[i], pc.read[i])
      ensures pc.read[i] == [] || pc.paths[i] in next.renaming
    {
      assert pc.paths[i] in pc.paths;
      if pc.read[i] != [] {
        assert pc.read[i][0] in pc.read[i];
        FlattenHolds(pc.read, pc.read[i][0]);
      }
    }
    forall path | path in next.renaming ensures path in pc.paths {
      var r :| r in Flatten(pc.read) && r.index == path;
      SnapshotRowsPlaced(cfg, pc.paths, pc.read, r);
    }
  }

  lemma RenamingIsCurrent(cfg: Config, s: State, step: Step)
    requires SnapshotsCurrent(cfg, s) && Enabled(cfg, s, step) && step.RenameIndex?
    ensures PruningCurrent(cfg, Apply(cfg, s, step).index, Apply(cfg, s, step).procs[step.p].pc)
  {
    var pc := s.procs[step.p].pc;
    var t := Apply(cfg, s, step);
    var next := t.procs[step.p].pc;
    assert next.paths == pc.paths && next.read == pc.read && next.plan == pc.plan;
    forall i | 0 <= i < |pc.read|
      ensures RowsAt(t.index, pc.paths[i]) ==
              if pc.paths[i] in next.renaming || pc.read[i] == [] then pc.read[i] else KeptIn(pc.plan.kept, pc.paths[i])
    {
      assert pc.paths[i] in pc.paths;
      if pc.paths[i] == step.path && pc.read[i] == [] {
        NothingKeptFromEmptyFile(cfg, pc, i);
      }
    }
  }

  lemma NothingKeptFromEmptyFile(cfg: Config, pc: Pc, i: nat)
    requires pc.Pruning? && |pc.read| == |pc.paths| && i < |pc.paths| && pc.read[i] == []
    requires forall i, j :: 0 <= i < j < |pc.paths| ==> pc.paths[i] != pc.paths[j]
    requires forall i :: 0 <= i < |pc.read| ==> Placed(cfg, pc.paths[i], pc.read[i])
    requires Retention(Collapse(Flatten(pc.read)), pc.plan.cutoff, pc.plan.maxRecords, pc.plan.kept, pc.plan.dropped)
    ensures KeptIn(pc.plan.kept, pc.paths[i]) == []
  {
    var rows := Flatten(pc.read);
    KeptInHolds(pc.plan.kept, pc.paths[i]);
    KeptRowsAreShown(Collapse(rows), rows, pc.plan);
    var kept := KeptIn(pc.plan.kept, pc.paths[i]);
    if kept != [] {
      assert kept[0] in kept;
      SnapshotRowsPlaced(cfg, pc.paths, pc.read, kept[0]);
    }
  }

  lemma InvariantHoldsInitially(cfg: Config, s: State)
    requires Init(s)
    ensures Inv(cfg, s)
  {
  }

  /** Every step keeps the invariant; in particular a lock holder's snapshot is
      the index on disk until it renames, whatever the others do. */
  lemma EveryStepKeepsInvariant(cfg: Config, s: State, step: Step)
    requires Inv(cfg, s) && Enabled(cfg, s, step)
    ensures Inv(cfg, Apply(cfg, s, step))
  {
    PreservesMutualExclusion(cfg, s, step);
    PreservesRowsPlaced(cfg, s, step);
    PreservesSnapshots(cfg, s, step);
    PreservesPutsOwned(cfg, s, step);
    PreservesFilesSound(cfg, s, step);
    PreservesCachesNamed(cfg, s, step);
    PreservesCachesSealed(cfg, s, step);
    PreservesPutsSealed(cfg, s, step);
    var t := Apply(cfg, s, step);
    forall p, c | p in t.procs && c in t.procs[p].calls ensures CallSound(t, p, t.procs[p].calls[c]) {
      PreservesCallSound(cfg, s, step, p, c);
    }
  }

  lemma {:induction false} InvariantHoldsAlongRuns(cfg: Config, states: seq<State>, steps: seq<Step>, n: nat)
    requires IsRun(cfg, states, steps) && n < |states|
    ensures Inv(cfg, states[n])
  {
    if n == 0 {
      InvariantHoldsInitially(cfg, states[0]);
    } else {
      InvariantHoldsAlongRuns(cfg, states, steps, n - 1);
      assert StepAt(cfg, states, steps, n - 1);
      EveryStepKeepsInvariant(cfg, states[n - 1], steps[n - 1]);
    }
  }
}
