// Killing a command's process group before its leader is reaped
// (command/termination_unix.go), with any number of cancellations.
module GroupTermination {
  /** Who owns the leader's process id: nobody yet, the leader itself, nobody
      any more, or a stranger the kernel gave it to. */
  datatype Leader = NotStarted | Alive | Zombie | Free | Foreign

  /** The steps of run: start, wait without reaping, kill, lock, set the flag,
      reap, unlock. */
  datatype RunPc = Idle | Started | Exited | GroupKilled | Locked | Flagged | Reaped | Done

  datatype CancelPc = Quiet | Holding | Cleared | Answered(processDone: bool)

  datatype Holder = Nobody | Runner | Canceller(id: nat)

  datatype Kill = Kill(sender: Holder, at: Leader)

  datatype State = State(
    leader: Leader, hasProcess: bool, reaped: bool, mutex: Holder, run: RunPc,
    cancels: map<nat, CancelPc>, kills: seq<Kill>)

  const INIT := State(NotStarted, false, false, Nobody, Idle, map[], [])

  datatype Step =
    | Start(ok: bool)
    | Exit
    | Recycle
    | WaitidReturns(failed: bool)
    | RunKill
    | RunLock
    | SetReaped
    | Wait(reaps: bool)
    | RunUnlock
    | CancelLock(id: nat)
    | CancelCheck(id: nat)
    | CancelKill(id: nat, gone: bool)
    | CancelUnlock(id: nat)

  function CancelAt(s: State, id: nat): CancelPc {
    if id in s.cancels then s.cancels[id] else Quiet
  }

  /** Waiting returns once the leader has exited, or early with an error; the
      leader may exit at any time, and a freed id may be handed out. */
  predicate Enabled(s: State, step: Step) {
    match step
    case Start(_) => s.run == Idle
    case Exit => s.leader == Alive
    case Recycle => s.leader == Free
    case WaitidReturns(failed) => s.run == Started && (failed || s.leader == Zombie)
    case RunKill => s.run == Exited
    case RunLock => s.run == GroupKilled && s.mutex == Nobody
    case SetReaped => s.run == Locked
    case Wait(reaps) => s.run == Flagged && (reaps ==> s.leader == Zombie)
    case RunUnlock => s.run == Reaped
    case CancelLock(id) => CancelAt(s, id) == Quiet && s.mutex == Nobody
    case CancelCheck(id) => CancelAt(s, id) == Holding
    case CancelKill(id, _) => CancelAt(s, id) == Cleared
    case CancelUnlock(id) => CancelAt(s, id).Answered? && s.mutex == Canceller(id)
  }

  function Signal(s: State, sender: Holder): seq<Kill> {
    if s.hasProcess then s.kills + [Kill(sender, s.leader)] else s.kills
  }

  function Apply(s: State, step: Step): State {
    match step
    case Start(ok) => if ok then s.(leader := Alive, hasProcess := true, run := Started) else s.(run := Done)
    case Exit => s.(leader := Zombie)
    case Recycle => s.(leader := Foreign)
    case WaitidReturns(_) => s.(run := Exited)
    case RunKill => s.(run := GroupKilled, kills := Signal(s, Runner))
    case RunLock => s.(run := Locked, mutex := Runner)
    case SetReaped => s.(run := Flagged, reaped := true)
    case Wait(reaps) => s.(run := Reaped, leader := if reaps then Free else s.leader)
    case RunUnlock => s.(run := Done, mutex := Nobody)
    case CancelLock(id) => s.(mutex := Canceller(id), cancels := s.cancels[id := Holding])
    case CancelCheck(id) => s.(cancels := s.cancels[id := if s.reaped then Answered(true) else Cleared])
    case CancelKill(id, gone) => s.(cancels := s.cancels[id := Answered(!s.hasProcess || gone)],
        kills := Signal(s, Canceller(id)))
    case CancelUnlock(id) => s.(mutex := Nobody)
  }

  predicate ValidRun(s: State, steps: seq<Step>)
    decreases |steps|
  {
    steps == [] || (Enabled(s, steps[0]) && ValidRun(Apply(s, steps[0]), steps[1..]))
  }

  function After(s: State, steps: seq<Step>): State
    decreases |steps|
  {
    if steps == [] then s else After(Apply(s, steps[0]), steps[1..])
  }

  // -------------------------------------------------------------------------
  // Safety

  predicate OwnsId(leader: Leader) { leader == Alive || leader == Zombie }

  predicate Critical(run: RunPc) { run == Locked || run == Flagged || run == Reaped }

  predicate MutexAgrees(s: State) {
    && (s.mutex == Runner <==> Critical(s.run))
    && (forall id :: id in s.cancels && (s.cancels[id] == Holding || s.cancels[id] == Cleared) ==>
        s.mutex == Canceller(id))
  }

  /** The id is the leader's own from the start until after the flag is set,
      and whoever was cleared to kill still holds the lock the flag needs. */
  predicate IdIsOurs(s: State) {
    && (s.run == Idle ==> !s.hasProcess)
    && (s.run.Started? || s.run.Exited? || s.run.GroupKilled? || s.run.Locked? || s.run.Flagged? ==> s.hasProcess)
    && (s.reaped ==> s.run == Flagged || s.run == Reaped || s.run == Done)
    && (s.run == Flagged || s.run == Reaped ==> s.reaped)
    && (s.hasProcess && !s.reaped ==> OwnsId(s.leader) && s.run != Done)
    && (s.run == Flagged ==> OwnsId(s.leader))
    && (!s.hasProcess ==> s.leader == NotStarted && !s.reaped)
    && (forall id :: id in s.cancels && s.cancels[id] == Cleared ==> !s.reaped)
  }

  predicate KillsHitOurs(s: State) {
    forall k :: 0 <= k < |s.kills| ==> OwnsId(s.kills[k].at)
  }

  /** The runner's own kill comes before the reap. */
  predicate KilledBeforeReap(s: State) {
    s.hasProcess && !(s.run.Started? || s.run.Exited?) ==> exists k :: 0 <= k < |s.kills| && s.kills[k].sender == Runner
  }

  predicate Inv(s: State) {
    MutexAgrees(s) && IdIsOurs(s) && KillsHitOurs(s) && KilledBeforeReap(s)
  }

  lemma StepKeepsMutex(s: State, step: Step)
    requires MutexAgrees(s) && Enabled(s, step)
    ensures MutexAgrees(Apply(s, step))
  {
  }

  lemma StepKeepsId(s: State, step: Step)
    requires MutexAgrees(s) && IdIsOurs(s) && Enabled(s, step)
    ensures IdIsOurs(Apply(s, step))
  {
  }

  lemma StepKillsOurs(s: State, step: Step)
    requires MutexAgrees(s) && IdIsOurs(s) && KillsHitOurs(s) && Enabled(s, step)
    ensures KillsHitOurs(Apply(s, step))
  {
  }

  lemma StepKillsBeforeReap(s: State, step: Step)
    requires IdIsOurs(s) && KilledBeforeReap(s) && Enabled(s, step)
    ensures KilledBeforeReap(Apply(s, step))
  {
    var t := Apply(s, step);
    if step == RunKill {
      assert t.kills[|s.kills|].sender == Runner;
    } else {
      assert forall k :: 0 <= k < |s.kills| ==> t.kills[k] == s.kills[k];
    }
  }

  lemma {:induction false} InvAlongRuns(s: State, steps: seq<Step>)
    requires Inv(s) && ValidRun(s, steps)
    ensures Inv(After(s, steps))
    decreases |steps|
  {
    if steps != [] {
      StepKeepsMutex(s, steps[0]);
      StepKeepsId(s, steps[0]);
      StepKillsOurs(s, steps[0]);
      StepKillsBeforeReap(s, steps[0]);
      InvAlongRuns(Apply(s, steps[0]), steps[1..]);
    }
  }

  /** However starts, exits, early waits, cancellations and recycling
      interleave, every kill of the group reaches the leader's own id, and the
      leader is never reaped before its group was killed. */
  lemma EveryKillReachesTheGroup(steps: seq<Step>)
    requires ValidRun(INIT, steps)
    ensures var s := After(INIT, steps);
            && (forall k :: 0 <= k < |s.kills| ==> s.kills[k].at == Alive || s.kills[k].at == Zombie)
            && (s.leader == Free || s.leader == Foreign ==>
                s.reaped && exists k :: 0 <= k < |s.kills| && s.kills[k].sender == Runner)
  {
    InvAlongRuns(INIT, steps);
  }

  // -------------------------------------------------------------------------
  // Answers of a cancellation

  function KillsBy(kills: seq<Kill>, sender: Holder): nat {
    if kills == [] then 0
    else (if kills[|kills| - 1].sender == sender then 1 else 0) + KillsBy(kills[..|kills| - 1], sender)
  }

  /** A cancellation cleared to kill has sent nothing yet, and one that answered
      that it killed has sent one kill, whatever happened since. */
  ghost predicate CancelCounts(s: State, id: nat) {
    var sent := KillsBy(s.kills, Canceller(id));
    match CancelAt(s, id)
    case Quiet => sent == 0
    case Holding => sent == 0
    case Cleared => sent == 0 && !s.reaped
    case Answered(done) => sent <= 1 && (!done ==> sent == 1)
  }

  lemma StepKeepsCounts(s: State, step: Step, id: nat)
    requires Inv(s) && CancelCounts(s, id) && Enabled(s, step)
    ensures CancelCounts(Apply(s, step), id)
  {
    var t := Apply(s, step);
    StepKeepsId(s, step);
    if t.kills != s.kills {
      assert t.kills[..|t.kills| - 1] == s.kills;
    }
  }

  lemma {:induction false} CountsAlongRuns(s: State, steps: seq<Step>, id: nat)
    requires Inv(s) && CancelCounts(s, id) && ValidRun(s, steps)
    ensures CancelCounts(After(s, steps), id)
    decreases |steps|
  {
    if steps != [] {
      StepKeepsCounts(s, steps[0], id);
      InvAlongRuns(s, [steps[0]]);
      assert After(Apply(s, steps[0]), []) == Apply(s, steps[0]);
      assert [steps[0]][1..] == [] && ValidRun(Apply(s, steps[0]), []);
      CountsAlongRuns(Apply(s, steps[0]), steps[1..], id);
    }
  }

  lemma {:induction false} RunSplits(s: State, before: seq<Step>, after: seq<Step>)
    requires ValidRun(s, before + after)
    ensures ValidRun(s, before) && ValidRun(After(s, before), after)
    ensures After(s, before + after) == After(After(s, before), after)
    decreases |before|
  {
    if before == [] {
      assert before + after == after;
    } else {
      assert (before + after)[1..] == before[1..] + after;
      RunSplits(Apply(s, before[0]), before[1..], after);
    }
  }

  /** A cancellation answered without a kill stays answered. */
  lemma {:induction false} AnswerStays(s: State, steps: seq<Step>, id: nat)
    requires ValidRun(s, steps) && CancelAt(s, id).Answered?
    ensures CancelAt(After(s, steps), id) == CancelAt(s, id)
    ensures KillsBy(After(s, steps).kills, Canceller(id)) == KillsBy(s.kills, Canceller(id))
    decreases |steps|
  {
    if steps != [] {
      var t := Apply(s, steps[0]);
      if t.kills != s.kills {
        assert t.kills[..|t.kills| - 1] == s.kills;
      }
      AnswerStays(t, steps[1..], id);
    }
  }

  /** However many steps of others pass between a cancellation's check and its
      kill: if the check found the flag set, it has answered that the process is
      done and never sends a kill; otherwise the flag is still clear, and its one
      kill goes to the leader's own id, or to nobody if there is no process. */
  lemma CancelAnswers(before: seq<Step>, between: seq<Step>, id: nat, gone: bool)
    requires ValidRun(INIT, before + [CancelCheck(id)] + between)
    ensures var checked := After(INIT, before);
            var s := After(INIT, before + [CancelCheck(id)] + between);
            && (checked.reaped ==>
                  CancelAt(s, id) == Answered(true) && KillsBy(s.kills, Canceller(id)) == 0)
            && (CancelAt(s, id) == Cleared ==>
                  var done := Apply(s, CancelKill(id, gone));
                  && !s.reaped
                  && CancelAt(done, id) == Answered(!s.hasProcess || gone)
                  && KillsBy(done.kills, Canceller(id)) == (if s.hasProcess then 1 else 0)
                  && (s.hasProcess ==> OwnsId(s.leader) && done.kills == s.kills + [Kill(Canceller(id), s.leader)]))
  {
    var checking := before + [CancelCheck(id)];
    RunSplits(INIT, checking, between);
    RunSplits(INIT, before, [CancelCheck(id)]);
    var checked := After(INIT, before);
    var s := After(INIT, checking + between);
    assert [CancelCheck(id)][1..] == [];
    assert After(INIT, checking) == Apply(checked, CancelCheck(id));
    InvAlongRuns(INIT, before);
    InvAlongRuns(INIT, checking + between);
    CountsAlongRuns(INIT, before, id);
    CountsAlongRuns(INIT, checking + between, id);
    if checked.reaped {
      AnswerStays(After(INIT, checking), between, id);
    }
    if CancelAt(s, id) == Cleared && s.hasProcess {
      var kills := s.kills + [Kill(Canceller(id), s.leader)];
      assert kills[..|kills| - 1] == s.kills;
    }
  }
}
