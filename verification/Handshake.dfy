/** The handshake between the launcher and the container process (src/core/cage.c,
    src/core/child.c, src/sandbox/nssetup.c): two processes, two shared words, every interleaving,
    and a child that may die at any step. One step is one access to a shared word, one system
    call, or one stretch of work that the other process cannot observe. */
module Handshake {

  /** The shared word a poll loop watches. */
  datatype Word = Net | Root

  /** What the child does next. */
  datatype Child =
    | Unshare      // setup_mount_namespaces
    | SetNet       // net word := 1
    | WakeNet
    | CheckNet     // net word != 2 ?
    | WaitNet      // futex wait, expecting 1
    | AsleepNet    // blocked in that wait
    | NetSetup     // net_setup_child
    | Setup        // do_child_setup
    | Chroot       // move_and_chroot
    | SetRoot      // root word := 1
    | WakeRoot
    | Running      // init script and command
    | Zombie
    | Reaped

  /** What the parent does next. */
  datatype Parent =
    | Begin
    | NetFirst             // the test before the poll loop
    | Poll(w: Word)        // the word is 1 ?
    | Peek(w: Word)        // has the child exited ?
    | Sleep(w: Word)       // timed futex wait, expecting 0
    | Asleep(w: Word)      // blocked in that wait, at most 20 ms
    | HostWork             // parent_nl_cmds
    | SetTwo               // net word := 2
    | WakeTwo
    | RemoveEarly          // remove_root while the command runs
    | Reap                 // waitpid
    | Cleanup              // the rest of finish_child, with its remove_root
    | Done

  datatype State = State(
    useNet: bool, net: int, root: int, child: Child, parent: Parent,
    hostDone: bool,     // the parent's host-side work has been carried out
    configured: bool,   // the child has configured its network
    chrooted: bool,     // the child has left the temporary root
    holdsRoot: bool,    // the parent still has the temporary root to remove
    removed: nat)       // how often it has been removed

  ghost predicate Init(s: State) {
    s == State(s.useNet, 0, 0, Unshare, Begin, false, false, false, true, 0)
  }

  function Read(s: State, w: Word): int {
    if w.Net? then s.net else s.root
  }

  // ------------------------------------------------------------------- steps

  /** A wake on a word ends the parent's wait on it. */
  function Woken(p: Parent, w: Word): Parent {
    if p == Asleep(w) then Poll(w) else p
  }

  predicate Alive(s: State) {
    !s.child.Zombie? && !s.child.Reaped?
  }

  /** The child can take its next step by itself. */
  predicate ChildEnabled(s: State) {
    Alive(s) && !s.child.AsleepNet?
  }

  /** Steps left to the child. */
  function ChildLeft(c: Child): nat {
    match c
    case Unshare => 13 case SetNet => 12 case WakeNet => 11 case CheckNet => 10 case WaitNet => 9
    case AsleepNet => 8 case NetSetup => 7 case Setup => 6 case Chroot => 5 case SetRoot => 4
    case WakeRoot => 3 case Running => 2 case Zombie => 1 case Reaped => 0
  }

  function ChildStep(s: State): (t: State)
    requires ChildEnabled(s)
    ensures ChildLeft(t.child) < ChildLeft(s.child) && t.hostDone == s.hostDone
  {
    match s.child
    case Unshare => s.(child := if s.useNet then SetNet else Setup)
    case SetNet => s.(net := 1, child := WakeNet)
    case WakeNet => s.(child := CheckNet, parent := Woken(s.parent, Net))
    case CheckNet => s.(child := if s.net != 2 then WaitNet else NetSetup)
    case WaitNet => s.(child := if s.net == 1 then AsleepNet else NetSetup)
    case NetSetup => s.(child := Setup, configured := true)
    case Setup => s.(child := Chroot)
    case Chroot => s.(child := SetRoot, chrooted := true)
    case SetRoot => s.(root := 1, child := WakeRoot)
    case WakeRoot => s.(child := Running, parent := Woken(s.parent, Root))
    case Running => s.(child := Zombie)
  }

  /** A failed step, a signal: the child may end anywhere, even asleep. */
  function Die(s: State): State
    requires Alive(s)
  {
    s.(child := Zombie)
  }

  /** Waiting for the child's end is the only thing the parent can be stuck in. */
  predicate ParentEnabled(s: State) {
    !s.parent.Done? && (s.parent.Reap? ==> s.child.Zombie?)
  }

  function ParentStep(s: State): (t: State)
    requires ParentEnabled(s)
    ensures s.hostDone ==> t.hostDone
    ensures t.child == s.child || (s.child.AsleepNet? && t.child.NetSetup?) || (s.child.Zombie? && t.child.Reaped?)
  {
    match s.parent
    case Begin => s.(parent := if s.useNet then NetFirst else Poll(Root))
    case NetFirst => s.(parent := if s.net == 1 then HostWork else Poll(Net))
    case Poll(w) =>
      s.(parent := if Read(s, w) != 1 then Peek(w) else if w.Net? then HostWork else RemoveEarly)
    case Peek(w) =>
      s.(parent := if !s.child.Zombie? then Sleep(w) else if w.Net? then Poll(Root) else Reap)
    case Sleep(w) => s.(parent := if Read(s, w) == 0 then Asleep(w) else Poll(w))
    case Asleep(w) => s.(parent := Poll(w))
    case HostWork => s.(parent := SetTwo, hostDone := true)
    case SetTwo => s.(net := 2, parent := WakeTwo)
    case WakeTwo => s.(parent := Poll(Root), child := if s.child.AsleepNet? then NetSetup else s.child)
    case RemoveEarly => s.(parent := Reap, holdsRoot := false, removed := s.removed + 1)
    case Reap => s.(parent := Cleanup, child := Reaped)
    case Cleanup =>
      s.(parent := Done, holdsRoot := false, removed := if s.holdsRoot then s.removed + 1 else s.removed)
  }

  ghost predicate Next(s: State, t: State) {
    || (ChildEnabled(s) && t == ChildStep(s))
    || (Alive(s) && t == Die(s))
    || (ParentEnabled(s) && t == ParentStep(s))
  }

  predicate Final(s: State) {
    s.parent.Done?
  }

  // --------------------------------------------------------------- invariant

  /** The parent is past the network part of the handshake. */
  predicate PastNet(p: Parent) {
    match p
    case Poll(w) => w.Root?
    case Peek(w) => w.Root?
    case Sleep(w) => w.Root?
    case Asleep(w) => w.Root?
    case RemoveEarly => true
    case Reap => true
    case Cleanup => true
    case Done => true
    case _ => false
  }

  /** The parent is in its poll loop (wait_flag). */
  predicate InLoop(p: Parent) {
    p.Poll? || p.Peek? || p.Sleep? || p.Asleep?
  }

  /** The child has got beyond its wait for the parent. */
  predicate BeyondWait(c: Child) {
    c.NetSetup? || c.Setup? || c.Chroot? || c.SetRoot? || c.WakeRoot? || c.Running?
  }

  /** The child has stored 1 and not yet got beyond its wait. */
  predicate InWait(c: Child) {
    c.WakeNet? || c.CheckNet? || c.WaitNet? || c.AsleepNet?
  }

  /** The child is past its network set-up. */
  predicate PastSetup(c: Child) {
    c.Setup? || c.Chroot? || c.SetRoot? || c.WakeRoot? || c.Running?
  }

  predicate NetInv(s: State) {
    && 0 <= s.net <= 2
    && (s.net == 2 ==> s.hostDone && (PastNet(s.parent) || s.parent.WakeTwo?))
    && (s.hostDone ==> s.parent.SetTwo? || s.net == 2)
    && (s.parent.SetTwo? || s.parent.WakeTwo? ==> s.hostDone)
    && (s.parent.WakeTwo? ==> s.net == 2)
    && (!s.useNet ==> (PastNet(s.parent) || s.parent.Begin?) && s.net == 0)
    && (s.useNet && PastNet(s.parent) && Alive(s) ==> s.net == 2)
    && (s.parent.HostWork? || s.parent.SetTwo? ==> s.net == 1)
    && (InWait(s.child) || s.child.SetNet? || s.child.NetSetup? ==> s.useNet)
    && (s.child.Unshare? || s.child.SetNet? ==> s.net == 0)
    && (InWait(s.child) ==> s.net >= 1)
    && (s.child.AsleepNet? ==> s.net == 1 || s.parent.WakeTwo?)
    && (s.useNet && BeyondWait(s.child) ==> s.net == 2)
    && (s.configured ==> s.hostDone)
    && (s.useNet && PastSetup(s.child) ==> s.configured)
  }

  predicate RootInv(s: State) {
    && 0 <= s.root <= 1
    && (s.root == 1 ==> s.chrooted)
    && (s.child.SetRoot? ==> s.chrooted)
    && (s.child.WakeRoot? || s.child.Running? ==> s.root == 1)
    && (s.parent.RemoveEarly? ==> s.root == 1)
    && s.holdsRoot == (s.removed == 0) && s.removed <= 1
    && (s.removed == 1 && !s.parent.Done? ==> s.chrooted && (s.parent.Reap? || s.parent.Cleanup?))
    && (s.parent.Done? ==> s.removed == 1)
    && (s.child.Reaped? <==> s.parent.Cleanup? || s.parent.Done?)
    && (s.parent.Reap? && Alive(s) ==> s.removed == 1)
  }

  predicate Inv(s: State) {
    NetInv(s) && RootInv(s)
  }

  lemma InitInv(s: State)
    requires Init(s)
    ensures Inv(s)
  {
  }

  lemma ChildKeepsNetInv(s: State)
    requires NetInv(s) && ChildEnabled(s)
    ensures NetInv(ChildStep(s))
  {
  }

  lemma ChildKeepsRootInv(s: State)
    requires RootInv(s) && ChildEnabled(s)
    ensures RootInv(ChildStep(s))
  {
    if AtRoot(s.child) { RootStepKeepsInv(s); } else { EarlyStepKeepsInv(s); }
  }

  /** The child is about to leave the temporary root, or has left it. */
  predicate AtRoot(c: Child) {
    c.Chroot? || c.SetRoot? || c.WakeRoot? || c.Running?
  }

  lemma RootStepKeepsInv(s: State)
    requires RootInv(s) && ChildEnabled(s) && AtRoot(s.child)
    ensures RootInv(ChildStep(s))
  {
  }

  lemma EarlyStepKeepsInv(s: State)
    requires RootInv(s) && ChildEnabled(s) && !AtRoot(s.child)
    ensures RootInv(ChildStep(s))
  {
  }

  lemma ParentKeepsNetInv(s: State)
    requires Inv(s) && ParentEnabled(s)
    ensures NetInv(ParentStep(s))
  {
    if InLoop(s.parent) { LoopKeepsNetInv(s); } else { StraightKeepsNetInv(s); }
  }

  lemma LoopKeepsNetInv(s: State)
    requires Inv(s) && ParentEnabled(s) && InLoop(s.parent)
    ensures NetInv(ParentStep(s))
  {
  }

  lemma StraightKeepsNetInv(s: State)
    requires Inv(s) && ParentEnabled(s) && !InLoop(s.parent)
    ensures NetInv(ParentStep(s))
  {
  }

  lemma ParentKeepsRootInv(s: State)
    requires RootInv(s) && ParentEnabled(s)
    ensures RootInv(ParentStep(s))
  {
    if InLoop(s.parent) { LoopKeepsRootInv(s); } else { StraightKeepsRootInv(s); }
  }

  lemma LoopKeepsRootInv(s: State)
    requires RootInv(s) && ParentEnabled(s) && InLoop(s.parent)
    ensures RootInv(ParentStep(s))
  {
  }

  lemma StraightKeepsRootInv(s: State)
    requires RootInv(s) && ParentEnabled(s) && !InLoop(s.parent)
    ensures RootInv(ParentStep(s))
  {
  }

  lemma NextKeepsInv(s: State, t: State)
    requires Inv(s) && Next(s, t)
    ensures Inv(t)
  {
    if ChildEnabled(s) { ChildKeepsNetInv(s); ChildKeepsRootInv(s); }
    if ParentEnabled(s) { ParentKeepsNetInv(s); ParentKeepsRootInv(s); }
  }

  // -------------------------------------------------------------------- runs

  /** An infinite run: a step at every instant until the parent has finished. */
  ghost predicate Run(r: nat -> State) {
    Init(r(0)) && forall i: nat :: if Final(r(i)) then r(i + 1) == r(i) else Next(r(i), r(i + 1))
  }

  lemma {:induction false} RunInv(r: nat -> State, i: nat)
    requires Run(r)
    ensures Inv(r(i))
  {
    if i == 0 {
      InitInv(r(0));
    } else {
      RunInv(r, i - 1);
      if !Final(r(i - 1)) { NextKeepsInv(r(i - 1), r(i)); }
    }
  }

  /** Safety, at every instant of every run. The child configures its network only after the
      parent's host-side work, and always before its setup and its command; the parent removes the
      temporary root before the child's end only after the child has left it, and does not wait for
      a living child before it has removed it; the root is never removed twice; and when the parent
      is done, the child has been reaped and the root is gone. */
  lemma Safety(r: nat -> State, i: nat)
    requires Run(r)
    ensures r(i).configured ==> r(i).hostDone
    ensures r(i).child.NetSetup? ==> r(i).hostDone && r(i).net == 2
    ensures r(i).useNet && PastSetup(r(i).child) ==> r(i).configured && r(i).hostDone
    ensures r(i).child.Running? ==> r(i).chrooted
    ensures r(i).parent.RemoveEarly? ==> r(i).chrooted && r(i).removed == 0
    ensures r(i).parent.Reap? && Alive(r(i)) ==> r(i).removed == 1
    ensures r(i).removed <= 1
    ensures Alive(r(i)) && r(i).removed == 1 ==> r(i).chrooted
    ensures Final(r(i)) ==> r(i).child.Reaped? && r(i).removed == 1
  {
    RunInv(r, i);
  }

  /** The child does not die on the way: it ends only when its command does. */
  ghost predicate Undisturbed(r: nat -> State) {
    forall i: nat :: Alive(r(i)) && !Alive(r(i + 1)) ==> r(i).child.Running?
  }

  /** What has been done stays done. */
  predicate WorkKept(s: State, t: State) {
    && t.useNet == s.useNet && (s.chrooted ==> t.chrooted)
    && (s.configured ==> t.configured) && (s.hostDone ==> t.hostDone)
  }

  lemma ChildKeepsWork(s: State)
    requires ChildEnabled(s)
    ensures WorkKept(s, ChildStep(s))
  {
  }

  lemma ParentKeepsWork(s: State)
    requires ParentEnabled(s)
    ensures WorkKept(s, ParentStep(s)) && (!Alive(s) ==> !Alive(ParentStep(s)))
  {
  }

  lemma StepKeepsWork(s: State, t: State)
    requires Next(s, t)
    ensures WorkKept(s, t) && (!Alive(s) ==> !Alive(t))
  {
    if ChildEnabled(s) { ChildKeepsWork(s); }
    if ParentEnabled(s) { ParentKeepsWork(s); }
  }

  /** Then it has had its command, in its own root and, if it has one, with its network. */
  lemma {:induction false} CommandRan(r: nat -> State, i: nat)
    requires Run(r) && Undisturbed(r) && !Alive(r(i))
    ensures r(i).chrooted && (r(i).useNet ==> r(i).configured && r(i).hostDone)
  {
    assert i > 0;
    if Final(r(i - 1)) {
      CommandRan(r, i - 1);
    } else {
      StepKeepsWork(r(i - 1), r(i));
      if Alive(r(i - 1)) { Safety(r, i - 1); } else { CommandRan(r, i - 1); }
    }
  }

  /** No reachable state blocks both processes. */
  lemma NoDeadlock(r: nat -> State, i: nat)
    requires Run(r) && !Final(r(i))
    ensures ChildEnabled(r(i)) || ParentEnabled(r(i))
    ensures r(i).child.AsleepNet? ==> ParentEnabled(r(i))
  {
    RunInv(r, i);
  }

  // ---------------------------------------------------------------- progress

  /** The parent polls a word that only a living child can change. */
  predicate Polling(s: State) {
    && Alive(s)
    && InLoop(s.parent)
    && Read(s, s.parent.w) != 1
  }

  /** Steps left in the poll loop once it is bound to end. */
  function LoopLeft(s: State): nat
    requires InLoop(s.parent)
  {
    if Polling(s) then 0
    else if Read(s, s.parent.w) == 1 then
      match s.parent case Poll(_) => 1 case Sleep(_) => 3 case Asleep(_) => 2 case Peek(_) => 4
    else
      match s.parent case Peek(_) => 1 case Poll(_) => 2 case Asleep(_) => 3 case Sleep(_) => 4
  }

  function ParentLeft(s: State): (n: nat)
    ensures n < 30
  {
    match s.parent
    case Begin => 25
    case NetFirst => 24
    case HostWork => 18
    case SetTwo => 17
    case WakeTwo => 16
    case RemoveEarly => 4
    case Reap => 3
    case Cleanup => 2
    case Done => 0
    case _ => (if s.parent.w.Net? then 19 else 5) + LoopLeft(s)
  }

  function Measure(s: State): nat {
    30 * ChildLeft(s.child) + ParentLeft(s)
  }

  /** Every step uses up some of a finite amount of work, except a round of polling; and while
      the parent polls, the child is able to move. */
  lemma Progress(s: State, t: State)
    requires Inv(s) && Next(s, t)
    ensures Measure(t) < Measure(s) || (Measure(t) == Measure(s) && Polling(s) && t.child == s.child)
    ensures Polling(s) ==> ChildEnabled(s)
  {
    if t.child != s.child {
      ChildProgress(s, t);
    } else {
      OnlyParentMoved(s, t);
      ParentProgress(s);
    }
    if Polling(s) { PollingChild(s); }
  }

  /** Every step of the child, and its death, changes the child. */
  lemma OnlyParentMoved(s: State, t: State)
    requires Next(s, t) && t.child == s.child
    ensures ParentEnabled(s) && t == ParentStep(s)
  {
  }

  lemma ParentProgress(s: State)
    requires Inv(s) && ParentEnabled(s) && ParentStep(s).child == s.child
    ensures var t := ParentStep(s);
      Measure(t) < Measure(s) || (Measure(t) == Measure(s) && Polling(s))
  {
    if InLoop(s.parent) {
      LoopProgress(s);
    } else {
      StraightProgress(s);
    }
  }

  lemma LoopProgress(s: State)
    requires Inv(s) && ParentEnabled(s)
    requires InLoop(s.parent)
    ensures var t := ParentStep(s);
      ParentLeft(t) < ParentLeft(s) || (ParentLeft(t) == ParentLeft(s) && Polling(s))
  {
    if s.parent.Poll? || s.parent.Peek? { LookProgress(s); } else { SleepProgress(s); }
  }

  lemma LookProgress(s: State)
    requires Inv(s) && ParentEnabled(s) && (s.parent.Poll? || s.parent.Peek?)
    ensures var t := ParentStep(s);
      ParentLeft(t) < ParentLeft(s) || (ParentLeft(t) == ParentLeft(s) && Polling(s))
  {
  }

  lemma SleepProgress(s: State)
    requires Inv(s) && ParentEnabled(s) && (s.parent.Sleep? || s.parent.Asleep?)
    ensures var t := ParentStep(s);
      ParentLeft(t) < ParentLeft(s) || (ParentLeft(t) == ParentLeft(s) && Polling(s))
  {
  }

  lemma StraightProgress(s: State)
    requires Inv(s) && ParentEnabled(s)
    requires !InLoop(s.parent)
    ensures ParentLeft(ParentStep(s)) < ParentLeft(s)
  {
  }

  lemma ChildProgress(s: State, t: State)
    requires Inv(s) && Next(s, t) && t.child != s.child
    ensures Measure(t) < Measure(s)
  {
    ChildFalls(s, t);
  }

  lemma ChildFalls(s: State, t: State)
    requires Next(s, t) && t.child != s.child
    ensures ChildLeft(t.child) < ChildLeft(s.child)
  {
    if ChildEnabled(s) { ChildStepFalls(s); }
    if ParentEnabled(s) { ParentMovesChild(s); }
  }

  lemma ChildStepFalls(s: State)
    requires ChildEnabled(s)
    ensures ChildLeft(ChildStep(s).child) < ChildLeft(s.child)
  {
  }

  lemma ParentMovesChild(s: State)
    requires ParentEnabled(s)
    ensures var c := ParentStep(s).child; c == s.child || ChildLeft(c) < ChildLeft(s.child)
  {
  }

  /** A polled word can still change: the child is alive and not asleep. */
  lemma PollingChild(s: State)
    requires Inv(s) && Polling(s)
    ensures ChildEnabled(s)
  {
  }

  /** The child is not suspended for ever, and its command does not run for ever: whenever it can
      move, it moves (or is killed) later. */
  ghost predicate ChildFair(r: nat -> State) {
    forall i: nat :: ChildEnabled(r(i)) ==> Moves(r, i)
  }

  ghost predicate Moves(r: nat -> State, i: nat) {
    exists j: nat :: j > i && r(j).child != r(i).child
  }

  lemma StepMeasure(r: nat -> State, i: nat)
    requires Run(r)
    ensures Measure(r(i + 1)) <= Measure(r(i))
    ensures r(i + 1).child != r(i).child ==> Measure(r(i + 1)) < Measure(r(i))
    ensures Final(r(i)) || Polling(r(i)) || Measure(r(i + 1)) < Measure(r(i))
    ensures Polling(r(i)) ==> ChildEnabled(r(i))
  {
    RunInv(r, i);
    if !Final(r(i)) { Progress(r(i), r(i + 1)); }
  }

  lemma {:induction false} MeasureFalls(r: nat -> State, i: nat, j: nat)
    requires Run(r) && i < j
    ensures Measure(r(j)) <= Measure(r(i))
    ensures r(j).child != r(i).child ==> Measure(r(j)) < Measure(r(i))
    decreases j - i
  {
    StepMeasure(r, i);
    if i + 1 < j { MeasureFalls(r, i + 1, j); }
  }

  /** Every run in which the child is not suspended for ever ends, with the child reaped and the
      temporary root removed exactly once. */
  lemma {:induction false} Termination(r: nat -> State, i: nat) returns (end: nat)
    requires Run(r) && ChildFair(r)
    ensures Final(r(end)) && r(end).child.Reaped? && r(end).removed == 1
    decreases Measure(r(i))
  {
    StepMeasure(r, i);
    if Final(r(i)) {
      end := i;
      Safety(r, i);
    } else if Polling(r(i)) {
      assert Moves(r, i);
      var j: nat :| j > i && r(j).child != r(i).child;
      MeasureFalls(r, i, j);
      end := Termination(r, j);
    } else {
      end := Termination(r, i + 1);
    }
  }

  // ------------------------------------------------ what the futex must promise

  /** A return from the child's wait with neither a wake nor a changed word. */
  ghost predicate SpuriousReturn(s: State, t: State) {
    s.child.AsleepNet? && t == s.(child := NetSetup)
  }

  /** The order the handshake is for: the child's network after the parent's host-side work. */
  predicate InOrder(s: State) {
    s.configured ==> s.hostDone
  }

  /** States one after the other, each a step of the one before. */
  ghost predicate Steps(r: seq<State>) {
    r != [] && forall i :: 0 <= i < |r| - 1 ==> Next(r[i], r[i + 1])
  }

  /** Whatever happens from t on, the two sides stay in order. */
  ghost predicate StaysInOrder(t: State) {
    forall r: seq<State> :: Steps(r) && r[0] == t ==> InOrder(r[|r| - 1])
  }

  lemma StepKeepsHostDone(s: State, t: State)
    requires Next(s, t) && s.hostDone
    ensures t.hostDone
  {
  }

  lemma {:induction false} HostDoneStays(r: seq<State>, i: nat)
    requires Steps(r) && r[0].hostDone && i < |r|
    ensures r[i].hostDone
  {
    if i == 0 {
    } else {
      HostDoneStays(r, i - 1);
      StepKeepsHostDone(r[i - 1], r[i]);
    }
  }

  /** The child does not look at the word again after its wait. So after a spurious return the two
      sides stay in order, however they go on, exactly when the parent has finished its work: when
      it is about to store 2 or has stored it. Otherwise the child's very next step breaks the
      order. */
  lemma SpuriousReturnOrder(s: State, t: State)
    requires Inv(s) && SpuriousReturn(s, t)
    ensures StaysInOrder(t) <==> s.parent.SetTwo? || s.net == 2
    ensures !(s.parent.SetTwo? || s.net == 2) ==> ChildEnabled(t) && !InOrder(ChildStep(t))
  {
    if s.parent.SetTwo? || s.net == 2 {
      forall r: seq<State> | Steps(r) && r[0] == t ensures InOrder(r[|r| - 1]) {
        HostDoneStays(r, |r| - 1);
      }
    } else {
      var r := [t, ChildStep(t)];
      assert Steps(r) && r[0] == t && !InOrder(r[|r| - 1]);
    }
  }

  function AfterChild(s: State, n: nat): State
    requires Init(s) && s.useNet && n <= 5
  {
    if n == 0 then s
    else
      var p := AfterChild(s, n - 1);
      if ChildEnabled(p) then ChildStep(p) else p
  }

  /** Such a state is reachable: five child steps from the start. A spurious return there lets the
      child configure its network before the parent has done anything. */
  lemma SpuriousReturnBreaksOrder(s: State) returns (a: State, b: State)
    requires Init(s) && s.useNet
    ensures a == AfterChild(s, 5) && Inv(a) && SpuriousReturn(a, b)
    ensures ChildEnabled(b) && ChildStep(b).configured && !ChildStep(b).hostDone
  {
    a := AfterChild(s, 5);
    b := a.(child := NetSetup);
    assert AfterChild(s, 1).child.SetNet?;
    assert AfterChild(s, 2).child.WakeNet?;
    assert AfterChild(s, 3).child.CheckNet?;
    assert AfterChild(s, 4).child.WaitNet?;
  }
}
