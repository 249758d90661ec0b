/** Parent and child bouncing one blocked signal (SP_HW7/22-3), in the sigsuspend form and in the sigwaitinfo form. */
module PingPong {
  import opened Machines

  datatype Form = Sigsuspend | Sigwaitinfo

  /** `Suspended` and `Handling` occur in the sigsuspend form only: waiting with an empty mask, and inside the
      handler before the old mask is restored. */
  datatype Pc = Sending | Awaiting | Suspended | Handling | Exited

  /** One of the two processes; `pending` is the one slot a standard signal has. */
  datatype Process = Process(pc: Pc, rounds: nat, pending: bool)

  /** `lost` counts signals sent while one was pending already, `strays` signals sent to a process that had exited. */
  datatype State = State(form: Form, numSigs: nat, child: Process, parent: Process, lost: nat, strays: nat)

  datatype Action = ChildStep | ParentStep

  ghost predicate Init(s: State) {
    && 0 < s.numSigs
    && s.child == Process(Sending, 0, false)
    && s.parent == Process(Awaiting, 0, false)
    && s.lost == 0 && s.strays == 0
  }

  predicate CanStep(s: State, me: Process) {
    match me.pc
    case Sending => true
    case Awaiting => s.form == Sigsuspend || me.pending
    case Suspended => me.pending
    case Handling => true
    case Exited => false
  }

  predicate Enabled(s: State, a: Action) {
    match a
    case ChildStep => CanStep(s, s.child)
    case ParentStep => CanStep(s, s.parent)
  }

  /** The child sends first in every round, so waiting ends its round; for the parent, sending does. */
  function EndRound(s: State, me: Process, first: Pc): Process {
    me.(rounds := me.rounds + 1, pc := if me.rounds + 1 == s.numSigs then Exited else first)
  }

  /** What a process does to itself. */
  function Step(s: State, me: Process, isChild: bool): Process
    requires CanStep(s, me)
  {
    match me.pc
    case Sending => if isChild then me.(pc := Awaiting) else EndRound(s, me, Awaiting)
    case Awaiting =>
      if s.form == Sigsuspend then me.(pc := Suspended)
      else Received(s, me.(pending := false), isChild)
    case Suspended => me.(pc := Handling, pending := false)
    case Handling => Received(s, me, isChild)
  }

  function Received(s: State, me: Process, isChild: bool): Process {
    if isChild then EndRound(s, me, Sending) else me.(pc := Sending)
  }

  /** kill(): a signal that is pending already is not queued again. */
  function Signalled(them: Process): Process {
    if them.pc == Exited then them else them.(pending := true)
  }

  function Apply(s: State, a: Action): State
    requires Enabled(s, a)
  {
    var (me, them) := if a == ChildStep then (s.child, s.parent) else (s.parent, s.child);
    var me' := Step(s, me, a == ChildStep);
    var them' := if me.pc == Sending then Signalled(them) else them;
    s.(child := if a == ChildStep then me' else them',
       parent := if a == ChildStep then them' else me',
       lost := if me.pc == Sending && them.pending then s.lost + 1 else s.lost,
       strays := if me.pc == Sending && them.pc == Exited then s.strays + 1 else s.strays)
  }

  ghost predicate Next(s: State, s': State) {
    exists a :: Enabled(s, a) && s' == Apply(s, a)
  }

  /** The ball is with the child, on its way to the parent, with the parent, or on its way to the child. */
  predicate WithChild(s: State) {
    s.child.pc == Sending || s.child.pc == Handling
  }

  predicate WithParent(s: State) {
    s.parent.pc == Sending || s.parent.pc == Handling
  }

  function Balls(s: State): nat {
    (if WithChild(s) then 1 else 0) + (if WithParent(s) then 1 else 0)
    + (if s.child.pending then 1 else 0) + (if s.parent.pending then 1 else 0)
    + (if s.child.pc == Exited then 1 else 0)
  }

  predicate Inv(s: State) {
    && 0 < s.numSigs
    && Balls(s) == 1
    && s.lost == 0 && s.strays == 0
    && s.child.rounds <= s.parent.rounds <= s.numSigs
    && s.parent.rounds == s.child.rounds + (if s.child.pending || s.child.pc == Handling then 1 else 0)
    && (s.child.pc == Exited <==> s.child.rounds == s.numSigs)
    && (s.parent.pc == Exited <==> s.parent.rounds == s.numSigs)
    && (s.form == Sigwaitinfo ==>
          && s.child.pc != Suspended && s.child.pc != Handling
          && s.parent.pc != Suspended && s.parent.pc != Handling)
  }

  lemma ReachableInv(s: State)
    requires Reachable(Init, Next, s)
    ensures Inv(s)
  {
    InvariantReachable(Init, Next, Inv, s);
  }

  // ---------- main results ----------

  /** Until the child has exited there is exactly one signal about: held by a process that is about to send it on,
      or pending for one of them. None is ever merged with a pending one, none is sent to an exited process. */
  lemma ExactlyOneSignal(s: State)
    requires Reachable(Init, Next, s)
    ensures Balls(s) == 1
    ensures s.lost == 0 && s.strays == 0
    ensures WithChild(s) ==> !s.child.pending && !s.parent.pending && !WithParent(s)
  {
    ReachableInv(s);
  }

  /** No deadlock: while either process is running, one of them can step. */
  lemma SomeoneCanStep(s: State)
    requires Reachable(Init, Next, s)
    ensures s.child.pc != Exited || s.parent.pc != Exited <==> exists a :: Enabled(s, a)
  {
    ReachableInv(s);
    if s.child.pc != Exited || s.parent.pc != Exited {
      assert Enabled(s, ChildStep) || Enabled(s, ParentStep);
    }
  }

  /** How far into its round a process is. */
  function Progress(s: State, me: Process, isChild: bool): nat {
    match me.pc
    case Sending => if isChild then 0 else if s.form == Sigsuspend then 3 else 1
    case Awaiting => if isChild then 1 else 0
    case Suspended => if isChild then 2 else 1
    case Handling => if isChild then 3 else 2
    case Exited => 0
  }

  function RoundLength(s: State): nat {
    if s.form == Sigsuspend then 4 else 2
  }

  /** The steps that remain: four, or two, per process and round. */
  function StepsLeft(s: State): int {
    RoundLength(s) * (2 * s.numSigs - s.child.rounds - s.parent.rounds)
    - Progress(s, s.child, true) - Progress(s, s.parent, false)
  }

  lemma EveryStepCounts(s: State, a: Action)
    requires Reachable(Init, Next, s) && Enabled(s, a)
    ensures StepsLeft(Apply(s, a)) == StepsLeft(s) - 1
    ensures StepsLeft(s) > 0
  {
    ReachableInv(s);
  }

  /** So every run that cannot be continued has taken the same number of steps, and both loops have run numSigs
      rounds in it. */
  lemma RunsAreComplete(run: seq<State>)
    requires IsRun(Init, Next, run)
    ensures var s := run[|run| - 1];
            && |run| - 1 == StepsLeft(run[0]) - StepsLeft(s)
            && StepsLeft(run[0]) == 2 * RoundLength(run[0]) * run[0].numSigs
            && ((forall a :: !Enabled(s, a)) ==>
                  && StepsLeft(s) == 0
                  && s.child == Process(Exited, run[0].numSigs, false)
                  && s.parent == Process(Exited, run[0].numSigs, false))
  {
    var s := run[|run| - 1];
    RunSteps(run, |run| - 1);
    FirstStepsLeft(run[0]);
    if forall a :: !Enabled(s, a) {
      FinalState(s);
    }
  }

  lemma FirstStepsLeft(s: State)
    requires Init(s)
    ensures StepsLeft(s) == 2 * RoundLength(s) * s.numSigs
  {
  }

  lemma FinalState(s: State)
    requires Reachable(Init, Next, s) && forall a :: !Enabled(s, a)
    ensures StepsLeft(s) == 0
    ensures s.child == Process(Exited, s.numSigs, false) && s.parent == Process(Exited, s.numSigs, false)
  {
    ReachableInv(s);
    SomeoneCanStep(s);
  }

  lemma {:induction false} RunSteps(run: seq<State>, i: nat)
    requires IsRun(Init, Next, run) && i < |run|
    ensures Reachable(Init, Next, run[i])
    ensures i == StepsLeft(run[0]) - StepsLeft(run[i])
    ensures run[i].numSigs == run[0].numSigs && run[i].form == run[0].form
  {
    if i == 0 {
      InitialReachable(Init, Next, run[0]);
    } else {
      RunSteps(run, i - 1);
      assert Next(run[i - 1], run[i]);
      var a :| Enabled(run[i - 1], a) && run[i] == Apply(run[i - 1], a);
      EveryStepCounts(run[i - 1], a);
      StepReachable(Init, Next, run[i - 1], run[i]);
    }
  }

  // ---------- the two loops, updated in place ----------

  class SignalPair {
    const form: Form
    const numSigs: nat
    var child: Process
    var parent: Process
    var lost: nat
    var strays: nat

    ghost function Snapshot(): State
      reads this
    {
      State(form, numSigs, child, parent, lost, strays)
    }

    constructor (form: Form, numSigs: nat)
      requires 0 < numSigs
      ensures this.form == form && this.numSigs == numSigs && Init(Snapshot())
    {
      this.form, this.numSigs := form, numSigs;
      child, parent := Process(Sending, 0, false), Process(Awaiting, 0, false);
      lost, strays := 0, 0;
    }

    method ChildMove()
      requires Enabled(Snapshot(), ChildStep)
      modifies this
      ensures Snapshot() == Apply(old(Snapshot()), ChildStep)
    {
      match child.pc
      case Sending =>
        Kill(parent);
        if parent.pc != Exited {
          parent := parent.(pending := true);
        }
        child := child.(pc := Awaiting);
      case Awaiting =>
        if form == Sigsuspend {
          child := child.(pc := Suspended);
        } else {
          child := child.(pending := false, rounds := child.rounds + 1);
          child := child.(pc := if child.rounds == numSigs then Exited else Sending);
        }
      case Suspended =>
        child := child.(pc := Handling, pending := false);
      case Handling =>
        child := child.(rounds := child.rounds + 1);
        child := child.(pc := if child.rounds == numSigs then Exited else Sending);
    }

    method ParentMove()
      requires Enabled(Snapshot(), ParentStep)
      modifies this
      ensures Snapshot() == Apply(old(Snapshot()), ParentStep)
    {
      match parent.pc
      case Awaiting =>
        parent := if form == Sigsuspend then parent.(pc := Suspended) else parent.(pc := Sending, pending := false);
      case Suspended =>
        parent := parent.(pc := Handling, pending := false);
      case Handling =>
        parent := parent.(pc := Sending);
      case Sending =>
        Kill(child);
        if child.pc != Exited {
          child := child.(pending := true);
        }
        parent := parent.(rounds := parent.rounds + 1);
        parent := parent.(pc := if parent.rounds == numSigs then Exited else Awaiting);
    }

    /** The accounts of one kill(). */
    method Kill(them: Process)
      modifies this`lost, this`strays
      ensures lost == old(lost) + (if them.pending then 1 else 0)
      ensures strays == old(strays) + (if them.pc == Exited then 1 else 0)
    {
      if them.pending {
        lost := lost + 1;
      }
      if them.pc == Exited {
        strays := strays + 1;
      }
    }
  }
}
