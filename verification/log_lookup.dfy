// What record lookups and aborts may report over time, in one process
// (command/history.go, command/runner.go).
module LogLookup {
  import opened Wrappers
  import opened IndexRows
  import opened LogProtocol
  import opened LogInvariant
  import opened LogIndex

  // -------------------------------------------------------------------------
  // A terminal report is final

  ghost predicate CallSettled(s: State, p: Proc, call: Call)
    requires p in s.procs
  {
    && Settled(s, p, call.id)
    && (call.cached.Some? ==> Terminal(call.cached.value))
    && (call.durable.Loaded? && call.durable.rec.Some? ==> Terminal(call.durable.rec.value))
  }

  /** Call c of process p is in flight and has only terminal answers left. */
  ghost predicate AnswersTerminal(s: State, p: Proc, c: CallId, id: string) {
    && p in s.procs && c in s.procs[p].calls && s.procs[p].calls[c].id == id
    && CallSettled(s, p, s.procs[p].calls[c])
  }

  lemma CallsKeepTheirQuestion(cfg: Config, s: State, step: Step, p: Proc, c: CallId)
    requires Enabled(cfg, s, step) && step != Publish(p, c)
    requires p in s.procs && c in s.procs[p].calls
    ensures var t := Apply(cfg, s, step);
            && p in t.procs && c in t.procs[p].calls
            && t.procs[p].calls[c].id == s.procs[p].calls[c].id
            && t.procs[p].calls[c].cached == s.procs[p].calls[c].cached
  {
  }

  lemma AnswersTerminalIsStable(cfg: Config, s: State, step: Step, p: Proc, c: CallId, id: string)
    requires Inv(cfg, s) && Enabled(cfg, s, step) && step != Publish(p, c)
    requires AnswersTerminal(s, p, c, id)
    ensures AnswersTerminal(Apply(cfg, s, step), p, c, id)
  {
    SettledIsStable(cfg, s, step, p, id);
    CallsKeepTheirQuestion(cfg, s, step, p, c);
    var before, after := s.procs[p].calls[c], NextCalls(cfg, s, step);
    if step.p == p {
      assert after[c].durable == before.durable || step == ReadRow(p, c) || step == ReadFile(p, c);
    }
  }

  lemma TerminalReportSettles(cfg: Config, s: State, p: Proc, c: CallId)
    requires Inv(cfg, s) && Enabled(cfg, s, Publish(p, c)) && KnownTerminal(Outcome(s.procs[p].calls[c]))
    ensures Settled(Apply(cfg, s, Publish(p, c)), p, s.procs[p].calls[c].id)
  {
    var call := s.procs[p].calls[c];
    assert CallSound(s, p, call);
    SealedIsStable(cfg, s, Publish(p, c), call.id);
  }

  lemma {:induction false} SettledAlongRuns(
    cfg: Config, states: seq<State>, steps: seq<Step>, p: Proc, id: string, m: nat, n: nat)
    requires IsRun(cfg, states, steps) && m <= n < |states|
    requires p in states[m].procs && Settled(states[m], p, id)
    ensures p in states[n].procs && Settled(states[n], p, id)
  {
    if m < n {
      SettledAlongRuns(cfg, states, steps, p, id, m, n - 1);
      InvariantHoldsAlongRuns(cfg, states, steps, n - 1);
      assert StepAt(cfg, states, steps, n - 1);
      SettledIsStable(cfg, states[n - 1], steps[n - 1], p, id);
    }
  }

  lemma {:induction false} AnswersTerminalAlongRuns(
    cfg: Config, states: seq<State>, steps: seq<Step>, p: Proc, c: CallId, id: string, m: nat, n: nat)
    requires IsRun(cfg, states, steps) && m <= n < |states|
    requires forall k :: m <= k < n ==> steps[k] != Publish(p, c)
    requires AnswersTerminal(states[m], p, c, id)
    ensures AnswersTerminal(states[n], p, c, id)
  {
    if m < n {
      AnswersTerminalAlongRuns(cfg, states, steps, p, c, id, m, n - 1);
      InvariantHoldsAlongRuns(cfg, states, steps, n - 1);
      assert StepAt(cfg, states, steps, n - 1);
      AnswersTerminalIsStable(cfg, states[n - 1], steps[n - 1], p, c, id);
    }
  }

  /** Steps `from` to `to` are one lookup of `id` by process p: it starts at
      the one, answers at the other, and not in between. */
  ghost predicate Lookup(states: seq<State>, steps: seq<Step>, p: Proc, c: CallId, id: string, from: nat, to: nat) {
    && from < to < |steps|
    && steps[from] == StartGet(p, c, id)
    && steps[to] == Publish(p, c)
    && forall k :: from < k < to ==> steps[k] != Publish(p, c)
  }

  /** Once a process has reported a command terminal, no lookup it starts
      afterwards reports it running, whatever happens in between: live-output
      updates, its own or others' puts and cleanups, failures, crashes. */
  lemma TerminalReportIsFinal(
    cfg: Config, states: seq<State>, steps: seq<Step>, p: Proc, c: CallId, first: nat,
    later: CallId, from: nat, to: nat, id: string)
    requires IsRun(cfg, states, steps) && first < |steps|
    requires steps[first] == Publish(p, c) && AnsweredCall(cfg, states, steps, first).id == id
    requires var answer := AnswerAt(cfg, states, steps, first);
             answer.Some? && answer.value.row.status !in {"", "running"}
    requires first < from && Lookup(states, steps, p, later, id, from, to)
    ensures var answer := AnswerAt(cfg, states, steps, to);
            answer.Some? ==> answer.value.row.status !in {"", "running"}
  {
    InvariantHoldsAlongRuns(cfg, states, steps, first);
    assert StepAt(cfg, states, steps, first);
    TerminalReportSettles(cfg, states[first], p, c);
    SettledAlongRuns(cfg, states, steps, p, id, first + 1, from);
    InvariantHoldsAlongRuns(cfg, states, steps, from);
    assert StepAt(cfg, states, steps, from);
    SettledIsStable(cfg, states[from], steps[from], p, id);
    assert AnswersTerminal(states[from + 1], p, later, id);
    AnswersTerminalAlongRuns(cfg, states, steps, p, later, id, from + 1, to);
    assert StepAt(cfg, states, steps, to);
  }

  // -------------------------------------------------------------------------
  // Aborts

  // An abort waits until the command's runner has closed its done channel and
  // looks the record up; it answers ok unless it finds the record running.

  /** No running record of a finished command can reach process p's lookups:
      not from its cache, and from disk not both a row and a running file. */
  ghost predicate Silent(cfg: Config, s: State, p: Proc, id: string) {
    && p in s.procs && !s.procs[p].pc.Loading?
    && id in s.life && s.life[id] == Finished
    && CacheQuiet(s, p, id)
    && (Shown(cfg, s, id).None? || FileQuiet(s, id))
  }

  ghost predicate FileQuiet(s: State, id: string) {
    id in s.files ==> Terminal(s.files[id])
  }

  ghost predicate Retired(s: State, p: Proc, id: string) {
    && p in s.procs && !s.procs[p].pc.Loading?
    && id in s.life && s.life[id] == Finished
  }

  /** Nobody puts a finished command, so nothing about it reappears. */
  lemma RetiredMeansNoPut(s: State, p: Proc, id: string, q: Proc)
    requires PutsOwned(s) && Retired(s, p, id) && q in s.procs && Putting(s.procs[q].pc)
    ensures s.procs[q].pc.rec.row.id != id
  {
    assert PutOwned(s, q, s.procs[q].pc.rec);
  }

  lemma FinishedIsFinal(cfg: Config, s: State, step: Step, p: Proc, id: string)
    requires PutsOwned(s) && Enabled(cfg, s, step) && Retired(s, p, id)
    ensures id in NextLife(cfg, s, step) && NextLife(cfg, s, step)[id] == Finished
  {
    if Putting(s.procs[step.p].pc) { RetiredMeansNoPut(s, p, id, step.p); }
  }

  lemma LoadingHappensOnce(cfg: Config, s: State, step: Step)
    requires Enabled(cfg, s, step) && !s.procs[step.p].pc.Loading?
    ensures !NextPc(cfg, s, step).Loading?
  {
  }

  lemma RetiredIsStable(cfg: Config, s: State, step: Step, p: Proc, id: string)
    requires PutsOwned(s) && Enabled(cfg, s, step) && Retired(s, p, id)
    ensures Retired(Apply(cfg, s, step), p, id)
  {
    FinishedIsFinal(cfg, s, step, p, id);
    if step.p == p { LoadingHappensOnce(cfg, s, step); }
  }

  lemma RetiredFileIsStable(cfg: Config, s: State, step: Step, p: Proc, id: string)
    requires Inv(cfg, s) && Enabled(cfg, s, step) && Retired(s, p, id)
    ensures FileQuiet(s, id) ==> FileQuiet(Apply(cfg, s, step), id)
    ensures id !in s.files ==> id !in Apply(cfg, s, step).files
  {
    if step.WriteFile? { RetiredMeansNoPut(s, p, id, step.p); }
  }

  ghost predicate CacheQuiet(s: State, p: Proc, id: string)
    requires p in s.procs
  {
    id in s.procs[p].cache ==> Terminal(s.procs[p].cache[id])
  }

  lemma CacheQuietIsStable(cfg: Config, s: State, step: Step, p: Proc, id: string)
    requires Inv(cfg, s) && Enabled(cfg, s, step) && Retired(s, p, id) && CacheQuiet(s, p, id)
    ensures p in Apply(cfg, s, step).procs && CacheQuiet(Apply(cfg, s, step), p, id)
  {
    if step.p == p { OwnCacheStaysQuiet(cfg, s, step, id); }
  }

  lemma OwnCacheStaysQuiet(cfg: Config, s: State, step: Step, id: string)
    requires PutsOwned(s) && Enabled(cfg, s, step) && Retired(s, step.p, id) && CacheQuiet(s, step.p, id)
    ensures id in NextCache(cfg, s, step) ==> Terminal(NextCache(cfg, s, step)[id])
  {
    if Putting(s.procs[step.p].pc) { RetiredMeansNoPut(s, step.p, id, step.p); }
  }

  lemma UnlistedIsStable(cfg: Config, s: State, step: Step, p: Proc, id: string)
    requires Inv(cfg, s) && Enabled(cfg, s, step) && Retired(s, p, id) && Shown(cfg, s, id).None?
    ensures Shown(cfg, Apply(cfg, s, step), id).None?
  {
    StepRefinesAtomicIndex(cfg, s, step, id);
  }

  lemma SilentIsStable(cfg: Config, s: State, step: Step, p: Proc, id: string)
    requires Inv(cfg, s) && Enabled(cfg, s, step) && Silent(cfg, s, p, id)
    ensures Silent(cfg, Apply(cfg, s, step), p, id)
  {
    RetiredIsStable(cfg, s, step, p, id);
    RetiredFileIsStable(cfg, s, step, p, id);
    CacheQuietIsStable(cfg, s, step, p, id);
    if Shown(cfg, s, id).None? { UnlistedIsStable(cfg, s, step, p, id); }
  }

  /** A lookup of a finished command that found no cached record. */
  ghost predicate Probing(cfg: Config, s: State, p: Proc, c: CallId, id: string) {
    && Retired(s, p, id) && c in s.procs[p].calls
    && CacheQuiet(s, p, id)
    && var call := s.procs[p].calls[c];
    && call.id == id && call.cached.None?
    && (call.durable == Loaded(None) ==> Shown(cfg, s, id).None? || id !in s.files)
  }

  lemma ProbingIsStable(cfg: Config, s: State, step: Step, p: Proc, c: CallId, id: string)
    requires Inv(cfg, s) && Enabled(cfg, s, step) && step != Publish(p, c) && Probing(cfg, s, p, c, id)
    ensures Probing(cfg, Apply(cfg, s, step), p, c, id)
  {
    RetiredIsStable(cfg, s, step, p, id);
    RetiredFileIsStable(cfg, s, step, p, id);
    CacheQuietIsStable(cfg, s, step, p, id);
    if Shown(cfg, s, id).None? { UnlistedIsStable(cfg, s, step, p, id); }
    StepRefinesAtomicIndex(cfg, s, step, id);
  }

  /** A lookup that can no longer answer running. */
  ghost predicate AnswersQuietly(cfg: Config, s: State, p: Proc, c: CallId, id: string) {
    && Silent(cfg, s, p, id) && c in s.procs[p].calls
    && var call := s.procs[p].calls[c];
    && call.id == id
    && (call.cached.Some? ==> Terminal(call.cached.value))
    && (call.durable.Located? ==> FileQuiet(s, id))
    && (call.durable.Loaded? && call.durable.rec.Some? ==> Terminal(call.durable.rec.value))
  }

  lemma AnswersQuietlyIsStable(cfg: Config, s: State, step: Step, p: Proc, c: CallId, id: string)
    requires Inv(cfg, s) && Enabled(cfg, s, step) && step != Publish(p, c) && AnswersQuietly(cfg, s, p, c, id)
    ensures AnswersQuietly(cfg, Apply(cfg, s, step), p, c, id)
  {
    RetiredFileIsStable(cfg, s, step, p, id);
    SilentIsStable(cfg, s, step, p, id);
  }

  lemma {:induction false} SilentAlongRuns(
    cfg: Config, states: seq<State>, steps: seq<Step>, p: Proc, id: string, m: nat, n: nat)
    requires IsRun(cfg, states, steps) && m <= n < |states| && Silent(cfg, states[m], p, id)
    ensures Silent(cfg, states[n], p, id)
  {
    if m < n {
      SilentAlongRuns(cfg, states, steps, p, id, m, n - 1);
      InvariantHoldsAlongRuns(cfg, states, steps, n - 1);
      assert StepAt(cfg, states, steps, n - 1);
      SilentIsStable(cfg, states[n - 1], steps[n - 1], p, id);
    }
  }

  lemma {:induction false} ProbingAlongRuns(
    cfg: Config, states: seq<State>, steps: seq<Step>, p: Proc, c: CallId, id: string, m: nat, n: nat)
    requires IsRun(cfg, states, steps) && m <= n < |states| && Probing(cfg, states[m], p, c, id)
    requires forall k :: m <= k < n ==> steps[k] != Publish(p, c)
    ensures Probing(cfg, states[n], p, c, id)
  {
    if m < n {
      ProbingAlongRuns(cfg, states, steps, p, c, id, m, n - 1);
      InvariantHoldsAlongRuns(cfg, states, steps, n - 1);
      assert StepAt(cfg, states, steps, n - 1);
      ProbingIsStable(cfg, states[n - 1], steps[n - 1], p, c, id);
    }
  }

  lemma {:induction false} AnswersQuietlyAlongRuns(
    cfg: Config, states: seq<State>, steps: seq<Step>, p: Proc, c: CallId, id: string, m: nat, n: nat)
    requires IsRun(cfg, states, steps) && m <= n < |states| && AnswersQuietly(cfg, states[m], p, c, id)
    requires forall k :: m <= k < n ==> steps[k] != Publish(p, c)
    ensures AnswersQuietly(cfg, states[n], p, c, id)
  {
    if m < n {
      AnswersQuietlyAlongRuns(cfg, states, steps, p, c, id, m, n - 1);
      InvariantHoldsAlongRuns(cfg, states, steps, n - 1);
      assert StepAt(cfg, states, steps, n - 1);
      AnswersQuietlyIsStable(cfg, states[n - 1], steps[n - 1], p, c, id);
    }
  }

  /** An abort that waited for the runner to finish and answers ok leaves the
      process silent about the command. */
  lemma AbortOkSilences(
    cfg: Config, states: seq<State>, steps: seq<Step>, p: Proc, c: CallId, id: string, from: nat, to: nat)
    requires IsRun(cfg, states, steps) && Lookup(states, steps, p, c, id, from, to)
    requires id in states[from].life && states[from].life[id] == Finished
    requires var answer := AnswerAt(cfg, states, steps, to);
             answer.Some? ==> answer.value.row.status != "running"
    ensures Silent(cfg, states[to + 1], p, id)
  {
    InvariantHoldsAlongRuns(cfg, states, steps, from);
    assert StepAt(cfg, states, steps, from);
    InvariantHoldsAlongRuns(cfg, states, steps, to);
    assert StepAt(cfg, states, steps, to);
    RetiredAlongRuns(cfg, states, steps, p, c, id, from + 1, to);
    RetiredIsStable(cfg, states[to], steps[to], p, id);
    RetiredFileIsStable(cfg, states[to], steps[to], p, id);
    var call := states[to].procs[p].calls[c];
    if KnownTerminal(Outcome(call)) {
      TerminalReportSettles(cfg, states[to], p, c);
    } else {
      assert call.cached.None?;
      assert states[from + 1].procs[p].calls[c].cached.None?;
      ProbingAlongRuns(cfg, states, steps, p, c, id, from + 1, to);
      if Shown(cfg, states[to], id).None? { UnlistedIsStable(cfg, states[to], steps[to], p, id); }
    }
  }

  /** A lookup keeps its id and its cached record until it answers. */
  lemma {:induction false} RetiredAlongRuns(
    cfg: Config, states: seq<State>, steps: seq<Step>, p: Proc, c: CallId, id: string, m: nat, n: nat)
    requires IsRun(cfg, states, steps) && m <= n < |states|
    requires Retired(states[m], p, id) && c in states[m].procs[p].calls
    requires forall k :: m <= k < n ==> steps[k] != Publish(p, c)
    ensures Retired(states[n], p, id) && c in states[n].procs[p].calls
    ensures states[n].procs[p].calls[c].id == states[m].procs[p].calls[c].id
    ensures states[n].procs[p].calls[c].cached == states[m].procs[p].calls[c].cached
  {
    if m < n {
      RetiredAlongRuns(cfg, states, steps, p, c, id, m, n - 1);
      InvariantHoldsAlongRuns(cfg, states, steps, n - 1);
      assert StepAt(cfg, states, steps, n - 1);
      RetiredIsStable(cfg, states[n - 1], steps[n - 1], p, id);
      CallsKeepTheirQuestion(cfg, states[n - 1], steps[n - 1], p, c);
    }
  }

  /** A lookup of a silent command answers finished or nothing. */
  lemma SilentLookup(
    cfg: Config, states: seq<State>, steps: seq<Step>, p: Proc, id: string, c: CallId, from: nat, to: nat)
    requires IsRun(cfg, states, steps) && Lookup(states, steps, p, c, id, from, to)
    requires Silent(cfg, states[from], p, id)
    ensures var answer := AnswerAt(cfg, states, steps, to);
            answer.Some? ==> answer.value.row.status !in {"", "running"}
  {
    InvariantHoldsAlongRuns(cfg, states, steps, from);
    assert StepAt(cfg, states, steps, from);
    SilentIsStable(cfg, states[from], steps[from], p, id);
    assert AnswersQuietly(cfg, states[from + 1], p, c, id);
    AnswersQuietlyAlongRuns(cfg, states, steps, p, c, id, from + 1, to);
    assert StepAt(cfg, states, steps, to);
  }

  /** An abort that answers ok is never followed by a running report. */
  lemma AbortOkIsFinal(
    cfg: Config, states: seq<State>, steps: seq<Step>, p: Proc, id: string,
    c: CallId, asked: nat, answered: nat, later: CallId, from: nat, to: nat)
    requires IsRun(cfg, states, steps) && Lookup(states, steps, p, c, id, asked, answered)
    requires id in states[asked].life && states[asked].life[id] == Finished
    requires var answer := AnswerAt(cfg, states, steps, answered);
             answer.Some? ==> answer.value.row.status != "running"
    requires answered < from && Lookup(states, steps, p, later, id, from, to)
    ensures var answer := AnswerAt(cfg, states, steps, to);
            answer.Some? ==> answer.value.row.status !in {"", "running"}
  {
    AbortOkSilences(cfg, states, steps, p, c, id, asked, answered);
    SilentAlongRuns(cfg, states, steps, p, id, answered + 1, from);
    SilentLookup(cfg, states, steps, p, id, later, from, to);
  }
}
