// Several helper processes share one command log root. This module is the
// step relation of everything they do to it: puts, cleanups, record lookups,
// live-output updates, failures and crashes, in any interleaving
// (command/history.go, command/history_lock.go, command/runner.go).
module LogProtocol {
  import opened Wrappers
  import opened IndexRows

  type Proc = nat
  type CallId = nat

  /** The content of a record file. Record files are named by command id. */
  datatype Record = Record(row: Row, output: string)

  /** `home(id)` is the index file of the repository a command runs in. */
  datatype Config = Config(home: string -> string)

  /** What a cleanup decided about its snapshot. */
  datatype Plan = Plan(cutoff: int, maxRecords: int, kept: seq<Row>, dropped: seq<Row>)

  /** Where a process stands inside the section guarded by its own mutex. */
  datatype Pc =
    | Loading(listed: set<string>)  // the commands whose rows were read
    | Idle
    | Writing(rec: Record)    // put: record accepted
    | Truncated(rec: Record)  // put: record file opened, its old content gone
    | Filed(rec: Record)      // put: record file complete, index lock not held
    | Appending(rec: Record)  // put: holds the lock
    | Appended(rec: Record)   // put: row written, still holds the lock
    | Caching(rec: Record)    // put: lock released
    | Reading(paths: seq<string>, read: seq<seq<Row>>)  // cleanup: holds the lock
    | Pruning(paths: seq<string>, read: seq<seq<Row>>, plan: Plan,
              removing: seq<Row>, renaming: set<string>)  // cleanup: holds the lock
    | Dead

  /** Progress of a record lookup, which takes no index lock. Reading the row is
      one step, at the instant its own index file is read: what the other files
      hold does not matter (LogIndex.ReadersAgree). */
  datatype Durable = Unread | Located | Loaded(rec: Option<Record>)

  datatype Call = Call(id: string, cached: Option<Record>, durable: Durable)

  datatype Local = Local(pc: Pc, cache: map<string, Record>, calls: map<CallId, Call>)

  /** The life of a command id inside the runner that created it. */
  datatype Stage =
    | Announcing(owner: Proc)  // the running record is being put
    | Announced(owner: Proc)   // the command runs
    | Finishing(owner: Proc)   // the terminal record is being put
    | Finished                 // the runner is done with the id

  datatype State = State(
    index: map<string, seq<Row>>,
    files: map<string, Record>,
    lock: Option<Proc>,
    procs: map<Proc, Local>,
    life: map<string, Stage>)

  datatype Step =
    | ListEntry(p: Proc, id: string)
    | LoadEntry(p: Proc, id: string)
    | FinishLoading(p: Proc)
    | BeginPut(p: Proc, rec: Record)
    | OpenFile(p: Proc)
    | WriteFile(p: Proc)
    | LockPut(p: Proc)
    | CreateIndex(p: Proc)
    | AppendRow(p: Proc)
    | UnlockPut(p: Proc)
    | CachePut(p: Proc)
    | FailPut(p: Proc)
    | LockCleanup(p: Proc, paths: seq<string>)
    | ReadIndex(p: Proc)
    | Decide(p: Proc, plan: Plan)
    | RemoveEntry(p: Proc, unlinked: bool)
    | RenameIndex(p: Proc, path: string)
    | UnlockCleanup(p: Proc)
    | FailCleanup(p: Proc)
    | Crash(p: Proc)
    | LiveUpdate(p: Proc, id: string, output: string)
    | StartGet(p: Proc, c: CallId, id: string)
    | ReadRow(p: Proc, c: CallId)
    | ReadFile(p: Proc, c: CallId)
    | Publish(p: Proc, c: CallId)

  predicate HoldsLock(pc: Pc) {
    pc.Appending? || pc.Appended? || pc.Reading? || pc.Pruning?
  }

  predicate Putting(pc: Pc) {
    pc.Writing? || pc.Truncated? || pc.Filed? || pc.Appending? || pc.Appended? || pc.Caching?
  }

  predicate Terminal(rec: Record) {
    IsTerminal(rec.row.status)
  }

  predicate KnownTerminal(rec: Option<Record>) {
    rec.Some? && Terminal(rec.value)
  }

  function RowsAt(index: map<string, seq<Row>>, path: string): seq<Row> {
    if path in index then index[path] else []
  }

  /** Index files read one after the other. */
  function Flatten(parts: seq<seq<Row>>): seq<Row> {
    if parts == [] then [] else Flatten(parts[..|parts| - 1]) + parts[|parts| - 1]
  }

  /** The kept rows a rewrite of one index file retains, in kept order. */
  function KeptIn(kept: seq<Row>, path: string): seq<Row> {
    if kept == [] then []
    else
      var front := KeptIn(kept[..|kept| - 1], path);
      if kept[|kept| - 1].index == path then front + [kept[|kept| - 1]] else front
  }

  ghost predicate Lists(paths: seq<string>, index: map<string, seq<Row>>) {
    && (forall i, j :: 0 <= i < j < |paths| ==> paths[i] != paths[j])
    && (forall path :: path in index <==> path in paths)
  }

  /** The row the collapsed index shows for a command. */
  ghost function Shown(cfg: Config, s: State, id: string): Option<Row> {
    Best(RowsAt(s.index, cfg.home(id)), id)
  }

  /** What a lookup answers once it has what it needs. */
  function Outcome(call: Call): Option<Record>
    requires KnownTerminal(call.cached) || call.durable.Loaded?
  {
    if KnownTerminal(call.cached) then call.cached
    else if KnownTerminal(call.durable.rec) then call.durable.rec
    else if call.cached.Some? then call.cached
    else call.durable.rec
  }

  /** The order of precedence, once both sources are known: a finished record
      from the cache, a finished one from disk, what the cache holds, the disk. */
  lemma OutcomePrecedence(call: Call)
    requires call.durable.Loaded?
    ensures var cached, durable := call.cached, call.durable.rec;
            var finished := (rec: Option<Record>) => rec.Some? && rec.value.row.status !in {"", "running"};
            Outcome(call) == if finished(cached) || (cached.Some? && !finished(durable)) then cached else durable
  {
  }

  predicate Ready(call: Call) {
    KnownTerminal(call.cached) || call.durable.Loaded?
  }

  ghost predicate Enabled(cfg: Config, s: State, step: Step) {
    && step.p in s.procs
    && var local := s.procs[step.p];
    var pc := local.pc;
    match step
    case ListEntry(_, id) => pc.Loading? && Shown(cfg, s, id).Some?
    case LoadEntry(_, id) => pc.Loading? && id in pc.listed && id in s.files
    case FinishLoading(_) => pc.Loading?
    case BeginPut(_, rec) =>
      && pc.Idle? && rec.row.index == cfg.home(rec.row.id)
      && (|| (rec.row.status == "running" && rec.row.id !in s.life)
          || (Terminal(rec) && (rec.row.id in s.life ==> s.life[rec.row.id] == Announced(step.p))))
    case OpenFile(_) => pc.Writing?
    case WriteFile(_) => pc.Truncated?
    case LockPut(_) => pc.Filed? && s.lock.None?
    case CreateIndex(_) => pc.Appending?
    case AppendRow(_) => pc.Appending?
    case UnlockPut(_) => pc.Appended?
    case CachePut(_) => pc.Caching?
    case FailPut(_) => pc.Writing? || pc.Truncated? || pc.Filed? || pc.Appending?
    case LockCleanup(_, paths) => pc.Idle? && s.lock.None? && Lists(paths, s.index)
    case ReadIndex(_) => pc.Reading? && |pc.read| < |pc.paths|
    case Decide(_, plan) =>
      && pc.Reading? && |pc.read| == |pc.paths|
      && Retention(Collapse(Flatten(pc.read)), plan.cutoff, plan.maxRecords, plan.kept, plan.dropped)
    case RemoveEntry(_, _) => pc.Pruning? && pc.removing != []
    case RenameIndex(_, path) => pc.Pruning? && pc.removing == [] && path in pc.renaming
    case UnlockCleanup(_) => pc.Pruning? && pc.removing == [] && pc.renaming == {}
    case FailCleanup(_) => pc.Reading? || pc.Pruning?
    case Crash(_) => !pc.Dead?
    case LiveUpdate(_, id, _) => pc.Idle?
    case StartGet(_, c, _) => pc.Idle? && c !in local.calls
    case ReadRow(_, c) => !pc.Dead? && c in local.calls && local.calls[c].durable.Unread? && !Ready(local.calls[c])
    case ReadFile(_, c) => !pc.Dead? && c in local.calls && local.calls[c].durable.Located? && !Ready(local.calls[c])
    case Publish(_, c) =>
      && !pc.Dead? && c in local.calls && Ready(local.calls[c])
      && (!KnownTerminal(local.calls[c].cached) && KnownTerminal(local.calls[c].durable.rec) ==> pc.Idle?)
  }

  // The state after a step, part by part. A step carries every choice, so it
  // has one outcome.

  ghost function NextPc(cfg: Config, s: State, step: Step): Pc
    requires Enabled(cfg, s, step)
  {
    var pc := s.procs[step.p].pc;
    match step
    case ListEntry(_, id) => Loading(pc.listed + {id})
    case BeginPut(_, rec) => Writing(rec)
    case OpenFile(_) => Truncated(pc.rec)
    case WriteFile(_) => Filed(pc.rec)
    case LockPut(_) => Appending(pc.rec)
    case AppendRow(_) => Appended(pc.rec)
    case UnlockPut(_) => Caching(pc.rec)
    case LockCleanup(_, paths) => Reading(paths, [])
    case ReadIndex(_) => Reading(pc.paths, pc.read + [RowsAt(s.index, pc.paths[|pc.read|])])
    case Decide(_, plan) =>
      var rows := Flatten(pc.read);
      Pruning(pc.paths, pc.read, plan, plan.dropped, set r | r in rows :: r.index)
    case RemoveEntry(_, _) => pc.(removing := pc.removing[1..])
    case RenameIndex(_, path) => pc.(renaming := pc.renaming - {path})
    case Crash(_) => Dead
    case FinishLoading(_) => Idle
    case CachePut(_) => Idle
    case FailPut(_) => Idle
    case UnlockCleanup(_) => Idle
    case FailCleanup(_) => Idle
    case _ => pc
  }

  /** The kernel gives the lock back when its holder releases it or dies. */
  ghost function NextLock(cfg: Config, s: State, step: Step): Option<Proc>
    requires Enabled(cfg, s, step)
  {
    if HoldsLock(NextPc(cfg, s, step)) then Some(step.p)
    else if s.lock == Some(step.p) then None
    else s.lock
  }

  /** Opening the index file for an append creates it, also when the append then
      fails. */
  ghost function NextIndex(cfg: Config, s: State, step: Step): map<string, seq<Row>>
    requires Enabled(cfg, s, step)
  {
    var pc := s.procs[step.p].pc;
    match step
    case CreateIndex(_) => s.index[pc.rec.row.index := RowsAt(s.index, pc.rec.row.index)]
    case AppendRow(_) =>
      var home := pc.rec.row.index;
      s.index[home := RowsAt(s.index, home) + [pc.rec.row]]
    case RenameIndex(_, path) => s.index[path := KeptIn(pc.plan.kept, path)]
    case _ => s.index
  }

  /** A removal may fail, and the failure is ignored. */
  ghost function NextFiles(cfg: Config, s: State, step: Step): map<string, Record>
    requires Enabled(cfg, s, step)
  {
    var pc := s.procs[step.p].pc;
    match step
    case OpenFile(_) => s.files - {pc.rec.row.id}
    case WriteFile(_) => s.files[pc.rec.row.id := pc.rec]
    case RemoveEntry(_, unlinked) => if unlinked then s.files - {pc.removing[0].id} else s.files
    case _ => s.files
  }

  ghost function NextLife(cfg: Config, s: State, step: Step): map<string, Stage>
    requires Enabled(cfg, s, step)
  {
    var pc := s.procs[step.p].pc;
    match step
    case BeginPut(_, rec) => s.life[rec.row.id := if Terminal(rec) then Finishing(step.p) else Announcing(step.p)]
    case CachePut(_) => s.life[pc.rec.row.id := if Terminal(pc.rec) then Finished else Announced(step.p)]
    case FailPut(_) => s.life[pc.rec.row.id := Finished]
    case _ => s.life
  }

  ghost function NextCache(cfg: Config, s: State, step: Step): map<string, Record>
    requires Enabled(cfg, s, step)
  {
    var cache, pc := s.procs[step.p].cache, s.procs[step.p].pc;
    match step
    case LoadEntry(_, id) =>
      if id in cache && !Terminal(s.files[id]) then cache else cache[id := s.files[id]]
    case CachePut(_) => cache[pc.rec.row.id := pc.rec]
    case RemoveEntry(_, _) => cache - {pc.removing[0].id}
    case LiveUpdate(_, id, output) =>
      if id in cache && cache[id].row.status == "running"
      then cache[id := cache[id].(output := output)] else cache
    case Publish(_, c) =>
      var call := s.procs[step.p].calls[c];
      if !KnownTerminal(call.cached) && KnownTerminal(call.durable.rec)
      then cache[call.id := call.durable.rec.value] else cache
    case _ => cache
  }

  ghost function NextCalls(cfg: Config, s: State, step: Step): map<CallId, Call>
    requires Enabled(cfg, s, step)
  {
    var calls, cache := s.procs[step.p].calls, s.procs[step.p].cache;
    match step
    case StartGet(_, c, id) =>
      calls[c := Call(id, if id in cache then Some(cache[id]) else None, Unread)]
    case ReadRow(_, c) =>
      calls[c := calls[c].(durable := if Shown(cfg, s, calls[c].id).Some? then Located else Loaded(None))]
    case ReadFile(_, c) =>
      var id := calls[c].id;
      calls[c := calls[c].(durable := Loaded(if id in s.files then Some(s.files[id]) else None))]
    case Publish(_, c) => calls - {c}
    case _ => calls
  }

  ghost function Apply(cfg: Config, s: State, step: Step): State
    requires Enabled(cfg, s, step)
  {
    var local := Local(NextPc(cfg, s, step), NextCache(cfg, s, step), NextCalls(cfg, s, step));
    State(NextIndex(cfg, s, step), NextFiles(cfg, s, step), NextLock(cfg, s, step),
          s.procs[step.p := local], NextLife(cfg, s, step))
  }

  ghost predicate Init(s: State) {
    && s.index == map[] && s.files == map[] && s.lock.None? && s.life == map[]
    && forall p :: p in s.procs ==> s.procs[p] == Local(Loading({}), map[], map[])
  }

  /** A run from an empty log root: any number of processes, any interleaving. */
  ghost predicate IsRun(cfg: Config, states: seq<State>, steps: seq<Step>) {
    && |states| == |steps| + 1
    && Init(states[0])
    && forall n :: 0 <= n < |steps| ==> StepAt(cfg, states, steps, n)
  }

  ghost predicate StepAt(cfg: Config, states: seq<State>, steps: seq<Step>, n: nat)
    requires n < |steps| && |states| == |steps| + 1
  {
    Enabled(cfg, states[n], steps[n]) && states[n + 1] == Apply(cfg, states[n], steps[n])
  }

  /** The row appended by step n of a run. */
  ghost function AppendedRow(cfg: Config, states: seq<State>, steps: seq<Step>, n: nat): Row
    requires IsRun(cfg, states, steps) && n < |steps| && steps[n].AppendRow?
  {
    assert StepAt(cfg, states, steps, n);
    states[n].procs[steps[n].p].pc.rec.row
  }

  /** The lookup answered by step n of a run. */
  ghost function AnsweredCall(cfg: Config, states: seq<State>, steps: seq<Step>, n: nat): Call
    requires IsRun(cfg, states, steps) && n < |steps| && steps[n].Publish?
  {
    assert StepAt(cfg, states, steps, n);
    states[n].procs[steps[n].p].calls[steps[n].c]
  }

  ghost function AnswerAt(cfg: Config, states: seq<State>, steps: seq<Step>, n: nat): Option<Record>
    requires IsRun(cfg, states, steps) && n < |steps| && steps[n].Publish?
  {
    assert StepAt(cfg, states, steps, n);
    Outcome(AnsweredCall(cfg, states, steps, n))
  }
}
