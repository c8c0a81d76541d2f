/** The ready lists when a core is left alone: what its pops, pushes, yields and its shutdown end in, from every
    state the invariant allows. */
module QueueProgress {
  import opened Words
  import opened RunQueues
  import opened QueueRuns

  // ----- a pop

  /** From the test of the list to the read of the link. */
  lemma PopReads(s: System, c: nat, t: Tid)
    requires Shaped(s) && c < |s.cores| && s.cores[c].pc == Scheduler && !s.locks[c]
    requires s.heads[c] == Some(t) && t in s.next
    ensures var s1 := Step(s, c, Continue);
            var s2 := Step(s1, c, Continue);
            var s3 := Step(s2, c, Continue);
            var s4 := Step(s3, c, Continue);
            && s1.cores[c].pc == PopLock && s2.cores[c].pc == PopHead && s3.cores[c].pc == PopNext(Some(t))
            && s4 == s.(cores := s.cores[c := Core(PopStore(t, s.next[t]), s.cores[c].cur)],
                        locks := s.locks[c := true], holders := s.holders[c := Some(c)])
  {
    hide PushStepOf, NullStepOf, StartPush, StartNull;
    var cur := s.cores[c].cur;
    var held := s.(locks := s.locks[c := true], holders := s.holders[c := Some(c)]);
    var s1 := Step(s, c, Continue);
    assert s1 == s.(cores := s.cores[c := Core(PopLock, cur)]);
    var s2 := Step(s1, c, Continue);
    assert s2 == held.(cores := s.cores[c := Core(PopHead, cur)]);
    var s3 := Step(s2, c, Continue);
    assert s3 == held.(cores := s.cores[c := Core(PopNext(Some(t)), cur)]);
    assert Step(s3, c, Continue).cores == s.cores[c := Core(PopStore(t, s.next[t]), cur)];
  }

  /** The store, the unlock and the switch. */
  lemma PopTakes(s: System, c: nat, t: Tid, rest: Option<Tid>)
    requires Shaped(s) && c < |s.cores| && s.cores[c].pc == PopStore(t, rest) && s.queues[c] != []
    ensures var s5 := Step(s, c, Continue);
            var s6 := Step(s5, c, Continue);
            && s5.cores[c].pc == PopUnlock(t) && s6.cores[c].pc == PopSwitch(t)
            && Step(s6, c, Continue)
               == s.(cores := s.cores[c := Core(Task, Some(t))], heads := s.heads[c := rest],
                     queues := s.queues[c := s.queues[c][1..]], place := s.place[t := OnCore(c)],
                     locks := s.locks[c := false], holders := s.holders[c := None], running := s.running + {t})
  {
    hide PushStepOf, NullStepOf, StartPush, StartNull;
    var cur := s.cores[c].cur;
    var s5 := Step(s, c, Continue);
    assert s5.cores == s.cores[c := Core(PopUnlock(t), cur)];
    var s6 := Step(s5, c, Continue);
    assert s6.cores == s.cores[c := Core(PopSwitch(t), cur)];
    assert Step(s6, c, Continue).cores == s.cores[c := Core(Task, Some(t))];
  }

  lemma SevenSteps(s: System, c: nat)
    requires Shaped(s) && c < |s.cores|
    ensures var s1 := Step(s, c, Continue);
            var s2 := Step(s1, c, Continue);
            var s3 := Step(s2, c, Continue);
            var s4 := Step(s3, c, Continue);
            var s5 := Step(s4, c, Continue);
            var s6 := Step(s5, c, Continue);
            RunMoves(s, Steps(c, 7)) == Step(s6, c, Continue)
  {
    hide Step, RunMoves, Steps;
    var s1 := Step(s, c, Continue);
    var s2 := Step(s1, c, Continue);
    var s3 := Step(s2, c, Continue);
    OneStep(s, c, 7);
    OneStep(s1, c, 6);
    OneStep(s2, c, 5);
    OneStep(s3, c, 4);
    ThreeSteps(Step(s3, c, Continue), c);
  }

  /** A core in its scheduler loop whose list is not empty and whose lock is free, left alone, takes the first thread
      of the list, releases the lock and runs the thread, which is then marked RUNNING. */
  lemma PopRunsFirst(s: System, c: nat, t: Tid, rest: seq<Tid>)
    requires Inv(s) && c < |s.cores| && s.cores[c].pc == Scheduler && !s.locks[c] && s.queues[c] == [t] + rest
    ensures var s' := RunMoves(s, Steps(c, 7));
            && Inv(s') && IsList(s'.next, s'.heads[c], rest) && At(s', t, OnCore(c))
            && s' == s.(cores := s.cores[c := Core(Task, Some(t))], heads := s.heads[c := s.next[t]],
                        queues := s.queues[c := rest], place := s.place[t := OnCore(c)],
                        holders := s.holders[c := None], running := s.running + {t})
  {
    hide Inv, RunMoves, Steps, IsList;
    InvShape(s);
    FirstOfList(s, c);
    PopRunsState(s, c, t, rest);
    PopRunsInv(s, c, t);
    ListAfterPop(RunMoves(s, Steps(c, 7)), c);
  }

  lemma PopRunsState(s: System, c: nat, t: Tid, rest: seq<Tid>)
    requires Inv(s) && c < |s.cores| && s.cores[c].pc == Scheduler && !s.locks[c] && s.queues[c] == [t] + rest
    ensures t in s.next
    ensures RunMoves(s, Steps(c, 7))
            == s.(cores := s.cores[c := Core(Task, Some(t))], heads := s.heads[c := s.next[t]],
                  queues := s.queues[c := rest], place := s.place[t := OnCore(c)],
                  holders := s.holders[c := None], running := s.running + {t})
  {
    FirstOfList(s, c);
    hide Step, Inv, RunMoves, Steps, IsList;
    InvShape(s);
    SevenSteps(s, c);
    PopReads(s, c, t);
    var s4 := s.(cores := s.cores[c := Core(PopStore(t, s.next[t]), s.cores[c].cur)],
                 locks := s.locks[c := true], holders := s.holders[c := Some(c)]);
    PopTakes(s4, c, t, s.next[t]);
    PopOverall(s, s4, c, t, rest);
  }

  /** What was taken on the way is given back. */
  lemma PopOverall(s: System, s4: System, c: nat, t: Tid, rest: seq<Tid>)
    requires Shaped(s) && c < |s.cores| && !s.locks[c] && t in s.next && s.queues[c] == [t] + rest
    requires s4 == s.(cores := s.cores[c := Core(PopStore(t, s.next[t]), s.cores[c].cur)],
                      locks := s.locks[c := true], holders := s.holders[c := Some(c)])
    ensures s4.(cores := s4.cores[c := Core(Task, Some(t))], heads := s4.heads[c := s.next[t]],
                queues := s4.queues[c := s4.queues[c][1..]], place := s4.place[t := OnCore(c)],
                locks := s4.locks[c := false], holders := s4.holders[c := None], running := s4.running + {t})
            == s.(cores := s.cores[c := Core(Task, Some(t))], heads := s.heads[c := s.next[t]],
                  queues := s.queues[c := rest], place := s.place[t := OnCore(c)],
                  holders := s.holders[c := None], running := s.running + {t})
  {
    assert s.queues[c][1..] == rest;
    assert s4.cores[c := Core(Task, Some(t))] == s.cores[c := Core(Task, Some(t))];
    assert s4.locks[c := false] == s.locks;
    assert s4.holders[c := None] == s.holders[c := None];
  }

  lemma FirstOfList(s: System, c: nat)
    requires Inv(s) && c < |s.cores| && s.queues[c] != []
    ensures s.heads[c] == Some(s.queues[c][0]) && s.queues[c][0] in s.next
  {
    assert IsList(s.next, s.heads[c], s.queues[c]);
    hide LocksOk, StatusOk, PcOk, GuardOk, PlacesOk;
  }

  lemma PopRunsInv(s: System, c: nat, t: Tid)
    requires Inv(s) && c < |s.cores| && s.cores[c].pc == Scheduler && !s.locks[c]
    requires s.queues[c] != [] && s.heads[c] == Some(t) && t in s.next
    ensures Inv(RunMoves(s, Steps(c, 7)))
  {
    hide Step, Inv, RunMoves, Steps, IsList;
    InvShape(s);
    var s1 := Step(s, c, Continue);
    var s2 := Step(s1, c, Continue);
    var s3 := Step(s2, c, Continue);
    var s4 := Step(s3, c, Continue);
    var s5 := Step(s4, c, Continue);
    SevenSteps(s, c);
    PopReads(s, c, t);
    PopTakes(s4, c, t, s.next[t]);
    StepKeepsInv(s, c, Continue);
    StepKeepsInv(s1, c, Continue);
    StepKeepsInv(s2, c, Continue);
    StepKeepsInv(s3, c, Continue);
    StepKeepsInv(s4, c, Continue);
    StepKeepsInv(s5, c, Continue);
    StepKeepsInv(Step(s5, c, Continue), c, Continue);
  }

  lemma ListAfterPop(s: System, c: nat)
    requires Inv(s) && c < |s.cores|
    ensures IsList(s.next, s.heads[c], s.queues[c])
  {
    hide LocksOk, StatusOk, PcOk, GuardOk, PlacesOk, IsList;
  }

  /** While the lock is held a core that needs it waits, and changes nothing. */
  lemma LockHeldWaits(s: System, c: nat, a: Action)
    requires Inv(s) && c < |s.cores|
    requires match s.cores[c].pc
             case PopLock => s.locks[c]
             case PushLock(q, _, _) => q < |s.locks| && s.locks[q]
             case NullLock(q, _) => q < |s.locks| && s.locks[q]
             case _ => false
    ensures Step(s, c, a) == s
  {
    hide ListsOk, LocksOk, PlacesOk, StatusOk, PcOk, GuardOk;
  }

  /** With an empty list it stays in its loop. */
  lemma EmptyListWaits(s: System, c: nat)
    requires Inv(s) && c < |s.cores| && s.cores[c].pc == Scheduler && s.queues[c] == []
    ensures Step(s, c, Continue) == s
  {
    assert IsList(s.next, s.heads[c], s.queues[c]);
    hide LocksOk, StatusOk, PcOk, GuardOk, PlacesOk;
  }

  // ----- a push and then a pop

  /** A thread pushed onto the list of a core is the next that core runs, ahead of all that waited. */
  lemma PushedRunsNext(s: System, b: nat, c: nat, t: Tid, garbage: Option<Tid>)
    requires Inv(s) && b < |s.cores| && c < |s.cores| && !s.locks[c] && t !in s.place
    requires s.cores[c].pc == Scheduler && (s.cores[b].pc == Scheduler || s.cores[b].pc == Task)
    ensures var s' := RunMoves(RunMoves(s, PushMoves(b, Push(c, t, garbage))), Steps(c, 7));
            && Inv(s') && s'.cores == s.cores[c := Core(Task, Some(t))] && t in s'.running
            && s'.queues == s.queues && s'.heads == s.heads && s'.locks == s.locks
  {
    hide Inv, RunMoves, PushMoves, Steps, IsList, At;
    InvShape(s);
    ThreadPush(s, b, c, t, garbage);
    PopRunsFirst(RunMoves(s, PushMoves(b, Push(c, t, garbage))), c, t, s.queues[c]);
    assert s.queues[c := [t] + s.queues[c]][c := s.queues[c]] == s.queues;
    assert s.heads[c := Some(t)][c := s.heads[c]] == s.heads;
  }

  /** A push to a core that does not exist changes nothing. */
  lemma BadIndexIgnored(s: System, b: nat, a: Action)
    requires Shaped(s) && b < |s.cores| && (s.cores[b].pc == Scheduler || s.cores[b].pc == Task)
    requires (a.Push? || a.PushFails?) && a.queue >= |s.cores|
    ensures Step(s, b, a) == s
  {
  }

  // ----- a yield

  function YieldMoves(c: nat): seq<Move> { PushMoves(c, Yield) + Steps(c, 1) }

  lemma YieldBegins(s: System, c: nat, t: Tid)
    requires Shaped(s) && c < |s.cores| && s.cores[c] == Core(Task, Some(t))
    ensures Step(s, c, Yield)
            == s.(cores := s.cores[c := Core(PushLock(c, t, ToSwitch), Some(t))], running := s.running - {t})
  {
    hide PopStepOf, PushStepOf, NullStepOf;
  }

  lemma YieldSwitches(s: System, c: nat)
    requires Shaped(s) && c < |s.cores| && s.cores[c].pc == YieldSwitch
    ensures Step(s, c, Continue) == s.(cores := s.cores[c := Core(Scheduler, None)])
  {
    hide PopStepOf, PushStepOf, NullStepOf;
  }

  /** A task that yields, its list's lock free and its core left alone, is put in front of the core's own list, no
      longer marked RUNNING, and the core is idle in its scheduler loop. */
  lemma YieldGoesFirst(s: System, c: nat, t: Tid)
    requires Inv(s) && c < |s.cores| && s.cores[c] == Core(Task, Some(t)) && !s.locks[c]
    ensures var s' := RunMoves(s, YieldMoves(c));
            && Inv(s')
            && s' == s.(cores := s.cores[c := Core(Scheduler, None)], heads := s.heads[c := Some(t)],
                        queues := s.queues[c := [t] + s.queues[c]], next := s.next[t := s.heads[c]],
                        place := s.place[t := InQueue(c)], holders := s.holders[c := None],
                        running := s.running - {t}, exposed := s.exposed[c := false])
  {
    hide Inv, Step, RunMoves, Steps, PushMoves;
    InvShape(s);
    var r := RunMoves(s, PushMoves(c, Yield));
    YieldPushes(s, c, t);
    RunAppend(s, PushMoves(c, Yield), Steps(c, 1));
    OneStep(r, c, 1);
    NoStep(Step(r, c, Continue), c);
    YieldSwitches(r, c);
    StepKeepsInv(r, c, Continue);
    assert Step(r, c, Continue).cores == s.cores[c := Core(Scheduler, None)];
  }

  /** ... up to the switch. */
  lemma YieldPushes(s: System, c: nat, t: Tid)
    requires Inv(s) && c < |s.cores| && s.cores[c] == Core(Task, Some(t)) && !s.locks[c]
    ensures var r := RunMoves(s, PushMoves(c, Yield));
            && Inv(r)
            && r == s.(cores := s.cores[c := Core(YieldSwitch, Some(t))], heads := s.heads[c := Some(t)],
                       queues := s.queues[c := [t] + s.queues[c]], next := s.next[t := s.heads[c]],
                       place := s.place[t := InQueue(c)], holders := s.holders[c := None],
                       running := s.running - {t}, exposed := s.exposed[c := false])
  {
    hide Inv, Step, RunMoves, PushMoves;
    InvShape(s);
    var s0 := Step(s, c, Yield);
    SixSteps(s, c, Yield);
    YieldBegins(s, c, t);
    StepKeepsInv(s, c, Yield);
    FiveStepsOfPush(s0, c, c, t, ToSwitch);
    assert RunMoves(s, PushMoves(c, Yield)).cores == s.cores[c := Core(YieldSwitch, Some(t))];
  }

  /** So a yield gives the turn to nobody: unless another core pushes in between, the core runs the very thread that
      yielded again, and the others in its list wait as before. */
  lemma YieldResumesItself(s: System, c: nat, t: Tid)
    requires Inv(s) && c < |s.cores| && s.cores[c] == Core(Task, Some(t)) && !s.locks[c]
    ensures var s' := RunMoves(RunMoves(s, YieldMoves(c)), Steps(c, 7));
            && Inv(s') && s'.cores == s.cores && s'.queues == s.queues && s'.heads == s.heads && s'.locks == s.locks
            && t in s'.running
  {
    hide Inv, RunMoves, YieldMoves, Steps, IsList, At;
    InvShape(s);
    YieldGoesFirst(s, c, t);
    PopRunsFirst(RunMoves(s, YieldMoves(c)), c, t, s.queues[c]);
    assert s.queues[c := [t] + s.queues[c]][c := s.queues[c]] == s.queues;
    assert s.heads[c := Some(t)][c := s.heads[c]] == s.heads;
    assert s.cores[c := Core(Scheduler, None)][c := Core(Task, Some(t))] == s.cores;
  }

  // ----- shutdown

  lemma HaltedStep(s: System, b: nat, a: Action, c: nat)
    requires Shaped(s) && b < |s.cores| && c < |s.cores| && s.cores[c].pc == Halted
    ensures Step(s, b, a).cores[c].pc == Halted
  {
    if b == c {
      hide PopStepOf, PushStepOf, NullStepOf;
    }
  }

  /** A core that is told to shut down in its scheduler loop halts, and stays halted whatever the others do. */
  lemma {:induction false} HaltedStays(s: System, moves: seq<Move>, c: nat)
    requires Shaped(s) && c < |s.cores|
    requires s.cores[c].pc == Halted
             || (s.cores[c].pc == Scheduler && moves != [] && moves[0] == Move(c, Shutdown))
    ensures RunMoves(s, moves).cores[c].pc == Halted
    decreases |moves|
  {
    hide Step;
    if moves != [] {
      var m := moves[0];
      if s.cores[c].pc == Halted {
        if m.core < |s.cores| {
          HaltedStep(s, m.core, m.action, c);
        }
      } else {
        ShutdownHalts(s, c);
      }
      HaltedStays(StepMove(s, m), moves[1..], c);
    }
  }

  lemma ShutdownHalts(s: System, c: nat)
    requires Shaped(s) && c < |s.cores| && s.cores[c].pc == Scheduler
    ensures Step(s, c, Shutdown).cores[c].pc == Halted
  {
  }
}
