/** The ready lists over every run: what holds as long as no creation of a thread fails, what exactly a
    failed one breaks, and when. */
module QueueRuns {
  import opened Words
  import opened RunQueues

  datatype Move = Move(core: nat, action: Action)

  /** All cores in their loops, all lists empty, no thread created yet. */
  function Start(n: nat): (s: System)
    ensures Shaped(s) && |s.cores| == n
  {
    System(seq(n, _ => Core(Scheduler, None)), seq(n, _ => None), seq(n, _ => false), map[], {}, None,
           seq(n, _ => []), seq(n, _ => None), map[], [], seq(n, _ => false))
  }

  function StepMove(s: System, m: Move): (r: System)
    requires Shaped(s)
    ensures Shaped(r) && |r.cores| == |s.cores|
  {
    if m.core < |s.cores| then Step(s, m.core, m.action) else s
  }

  function RunMoves(s: System, moves: seq<Move>): (r: System)
    requires Shaped(s)
    ensures Shaped(r) && |r.cores| == |s.cores|
    decreases |moves|
  {
    if moves == [] then s else RunMoves(StepMove(s, moves[0]), moves[1..])
  }

  // ----- what a run may do

  /** Some core has read NULL for the next thread of its list. */
  ghost predicate ReadsNull(s: System)
    requires Shaped(s)
  {
    exists c :: 0 <= c < |s.cores| && s.cores[c].pc == PopNext(None)
  }

  ghost predicate NeverReadsNull(s: System, moves: seq<Move>)
    requires Shaped(s)
    decreases |moves|
  {
    !ReadsNull(s) && (moves != [] ==> NeverReadsNull(StepMove(s, moves[0]), moves[1..]))
  }

  /** A store of NULL that this move makes meets an empty list. */
  predicate MeetsEmpty(s: System, m: Move)
    requires Shaped(s)
  {
    m.core < |s.cores| && s.cores[m.core].pc.NullStore? && s.cores[m.core].pc.queue < |s.heads| ==>
      s.heads[s.cores[m.core].pc.queue].None?
  }

  ghost predicate StoresMeetEmpty(s: System, moves: seq<Move>)
    requires Shaped(s)
    decreases |moves|
  {
    moves != [] ==> MeetsEmpty(s, moves[0]) && StoresMeetEmpty(StepMove(s, moves[0]), moves[1..])
  }

  /** If this move reads the head of a list, the last store into the list since its owner tested it was
      not that of NULL. */
  predicate Guarded(s: System, m: Move)
    requires Shaped(s)
  {
    m.core < |s.cores| && s.cores[m.core].pc == PopHead ==> !s.exposed[m.core]
  }

  ghost predicate ReadsGuarded(s: System, moves: seq<Move>)
    requires Shaped(s)
    decreases |moves|
  {
    moves != [] ==> Guarded(s, moves[0]) && ReadsGuarded(StepMove(s, moves[0]), moves[1..])
  }

  /** Where the program state itself shows a thread. */
  ghost predicate At(s: System, t: Tid, p: Place)
    requires Shaped(s)
  {
    match p
    case InQueue(q) => q < |s.queues| && t in s.queues[q]
    case OnCore(c) => c < |s.cores| && Holds(s.cores[c], t)
    case Lost => false
  }

  ghost predicate Placed(s: System, t: Tid)
    requires Shaped(s)
  {
    exists p :: At(s, t, p)
  }

  /** Every created thread is in some list or in some core's hands. */
  ghost predicate AllPlaced(s: System)
    requires Shaped(s)
  {
    forall t: Tid :: t in s.place ==> Placed(s, t)
  }

  ghost predicate NeverLoses(s: System, moves: seq<Move>)
    requires Shaped(s)
    decreases |moves|
  {
    AllPlaced(s) && (moves != [] ==> NeverLoses(StepMove(s, moves[0]), moves[1..]))
  }

  predicate CreationFails(moves: seq<Move>) {
    exists k :: 0 <= k < |moves| && moves[k].action.PushFails?
  }

  // ----- the invariant over runs

  lemma StartOk(n: nat)
    ensures Clean(Start(n)) && !ReadsNull(Start(n))
  {
  }

  /** Until some core reads NULL. */
  lemma {:induction false} RunsKeepInv(s: System, moves: seq<Move>)
    requires Inv(s) && NeverReadsNull(s, moves)
    ensures Inv(RunMoves(s, moves))
    decreases |moves|
  {
    hide Inv, Step;
    if moves != [] {
      MoveKeepsInv(s, moves[0]);
      RunsKeepInv(StepMove(s, moves[0]), moves[1..]);
    }
  }

  lemma MoveKeepsInv(s: System, m: Move)
    requires Inv(s) && !ReadsNull(s)
    ensures Inv(StepMove(s, m))
  {
    hide Inv, Step;
    if m.core < |s.cores| {
      StepKeepsInv(s, m.core, m.action);
    }
  }

  lemma PlaceShows(s: System, t: Tid)
    requires Shaped(s) && PlacesOk(s) && t in s.place && s.place[t] != Lost
    ensures At(s, t, s.place[t])
  {
    hide Holds;
    match s.place[t] {
      case InQueue(q) => assert t in s.queues[q];
      case OnCore(c) => assert Holds(s.cores[c], t);
    }
  }

  lemma ShownIsPlace(s: System, t: Tid, p: Place)
    requires Shaped(s) && PlacesOk(s) && At(s, t, p)
    ensures t in s.place && s.place[t] == p
  {
    hide Holds;
    match p {
      case InQueue(q) => assert t in s.queues[q];
      case OnCore(c) => assert Holds(s.cores[c], t);
    }
  }

  /** A created thread is in some place exactly if it has not been lost. */
  lemma PlacedExactly(s: System, t: Tid)
    requires Inv(s)
    ensures Placed(s, t) <==> t in s.place && s.place[t] != Lost
  {
    hide At, Holds, IsList, Runs;
    if t in s.place && s.place[t] != Lost {
      PlaceShows(s, t);
    }
    if Placed(s, t) {
      var p :| At(s, t, p);
      ShownIsPlace(s, t, p);
      NothingIsLost(s, t, p);
    }
  }

  lemma NothingIsLost(s: System, t: Tid, p: Place)
    requires Shaped(s) && At(s, t, p)
    ensures p != Lost
  {
  }

  /** What every interleaving keeps, failed creations included, until a core has read NULL: mutual
      exclusion; lists that end, meet no thread twice and hold no thread marked RUNNING; and every thread
      in at most one place. */
  lemma SafeUntilNull(n: nat, moves: seq<Move>)
    requires NeverReadsNull(Start(n), moves)
    ensures var s := RunMoves(Start(n), moves);
            && |s.cores| == n
            && (forall b, c, q :: (0 <= b < n && 0 <= c < n && 0 <= q < n
                                   && InSection(s.cores[b].pc, b, q) && InSection(s.cores[c].pc, c, q)) ==> b == c)
            && (forall q :: 0 <= q < n ==>
                              && IsList(s.next, s.heads[q], s.queues[q])
                              && forall i, j :: 0 <= i < j < |s.queues[q]| ==> s.queues[q][i] != s.queues[q][j])
            && (forall t: Tid, q :: 0 <= q < n && t in s.queues[q] ==> t !in s.running)
            && (forall t: Tid, p, r :: At(s, t, p) && At(s, t, r) ==> p == r && t in s.place)
  {
    hide Holds, IsList, InSection, RunMoves, Runs, At;
    StartOk(n);
    RunsKeepInv(Start(n), moves);
    var s := RunMoves(Start(n), moves);
    forall b, c, q | 0 <= b < n && 0 <= c < n && 0 <= q < n
                     && InSection(s.cores[b].pc, b, q) && InSection(s.cores[c].pc, c, q)
      ensures b == c
    {
      OneInSection(s, b, c, q);
    }
    forall t: Tid, p, r | At(s, t, p) && At(s, t, r)
      ensures p == r && t in s.place
    {
      ShownIsPlace(s, t, p);
      ShownIsPlace(s, t, r);
    }
  }

  // ----- no thread is lost exactly if every store of NULL meets an empty list

  /** Nothing has been lost and no owner is exposed. */
  ghost predicate Clean(s: System) {
    && Inv(s)
    && (forall c :: 0 <= c < |s.exposed| ==> !s.exposed[c])
    && forall t :: t in s.place ==> s.place[t] != Lost
  }

  lemma CleanState(s: System)
    requires Clean(s)
    ensures Shaped(s) && !ReadsNull(s) && AllPlaced(s)
  {
    hide ListsOk, LocksOk, PlacesOk, StatusOk, PcOk, At;
    forall c | 0 <= c < |s.cores|
      ensures s.cores[c].pc != PopNext(None)
    {
      assert GuardOk(s, c);
    }
    forall t: Tid | t in s.place
      ensures Placed(s, t)
    {
      PlacedExactly(s, t);
    }
  }

  /** A step loses no thread and exposes no owner unless it stores NULL. */
  lemma StepLosesNothing(s: System, c: nat, a: Action)
    requires Shaped(s) && c < |s.cores| && !s.cores[c].pc.NullStore? && !s.cores[c].pc.PopNullStore?
    requires forall q :: 0 <= q < |s.exposed| ==> !s.exposed[q]
    requires forall t :: t in s.place ==> s.place[t] != Lost
    ensures var r := Step(s, c, a);
            && (forall q :: 0 <= q < |r.exposed| ==> !r.exposed[q])
            && forall t :: t in r.place ==> r.place[t] != Lost
  {
    hide SetPc;
    SetPcKeeps();
  }

  lemma SetPcKeeps()
    ensures forall s: System, c: nat, pc :: Shaped(s) && c < |s.cores| ==>
              SetPc(s, c, pc).exposed == s.exposed && SetPc(s, c, pc).place == s.place
  {
  }

  lemma MoveKeepsClean(s: System, m: Move)
    requires Clean(s) && MeetsEmpty(s, m)
    ensures Clean(StepMove(s, m))
  {
    CleanState(s);
    MoveKeepsInv(s, m);
    if m.core < |s.cores| {
      assert PcOk(s, m.core);
      if s.cores[m.core].pc.NullStore? {
        var q := s.cores[m.core].pc.queue;
        assert IsList(s.next, s.heads[q], s.queues[q]) && GuardOk(s, q);
      } else {
        StepLosesNothing(s, m.core, m.action);
        hide Step;
      }
    }
    hide Inv;
  }

  /** A store of NULL into a list that is not empty loses its first thread. */
  lemma StoreLoses(s: System, m: Move)
    requires Inv(s) && !ReadsNull(s) && !MeetsEmpty(s, m)
    ensures !AllPlaced(StepMove(s, m))
  {
    var q, s' := s.cores[m.core].pc.queue, StepMove(s, m);
    assert IsList(s.next, s.heads[q], s.queues[q]);
    var t := s.queues[q][0];
    assert t in s.queues[q];
    assert t in s.place && s.place[t] == InQueue(q);
    hide IsList, Holds, Runs, InSection, At;
    MoveKeepsInv(s, m);
    assert s'.place[t] == Lost;
    PlacedExactly(s', t);
  }

  /** Over every run from a state that has lost nothing: every created thread is in some list or in some
      core's hands at all times exactly if every store of NULL meets an empty list. */
  lemma {:induction false} NoThreadLostExactly(s: System, moves: seq<Move>)
    requires Clean(s)
    ensures NeverLoses(s, moves) <==> StoresMeetEmpty(s, moves)
    decreases |moves|
  {
    CleanState(s);
    hide Inv, StepMove, MeetsEmpty, AllPlaced;
    if moves != [] {
      if MeetsEmpty(s, moves[0]) {
        MoveKeepsClean(s, moves[0]);
        NoThreadLostExactly(StepMove(s, moves[0]), moves[1..]);
      } else {
        StoreLoses(s, moves[0]);
        assert !NeverLoses(StepMove(s, moves[0]), moves[1..]);
      }
    }
  }

  lemma {:induction false} RunsKeepClean(s: System, moves: seq<Move>)
    requires Clean(s) && StoresMeetEmpty(s, moves)
    ensures Clean(RunMoves(s, moves)) && NeverReadsNull(s, moves)
    decreases |moves|
  {
    CleanState(s);
    hide Inv, StepMove, MeetsEmpty;
    if moves != [] {
      MoveKeepsClean(s, moves[0]);
      RunsKeepClean(StepMove(s, moves[0]), moves[1..]);
    }
  }

  // ----- NULL is never read exactly if no reader is exposed

  /** A core comes to have read NULL only by reading the head of an empty list. */
  lemma ReadStep(s: System, m: Move)
    requires Inv(s) && !ReadsNull(s)
    ensures ReadsNull(StepMove(s, m)) <==> !Guarded(s, m)
  {
    hide Step, PlacesOk, LocksOk, StatusOk, PcOk;
    if m.core < |s.cores| {
      var c, s' := m.core, StepMove(s, m);
      assert GuardOk(s, c) && IsList(s.next, s.heads[c], s.queues[c]);
      ReadOfHead(s, c, m.action);
      assert s'.cores[c].pc == PopNext(None) <==> !Guarded(s, m);
      forall b | 0 <= b < |s.cores| && b != c
        ensures s'.cores[b].pc != PopNext(None)
      {
        assert s'.cores[b] == s.cores[b];
      }
    }
  }

  lemma ReadOfHead(s: System, c: nat, a: Action)
    requires Shaped(s) && c < |s.cores| && s.cores[c].pc != PopNext(None)
    ensures Step(s, c, a).cores[c].pc == PopNext(None) <==> s.cores[c].pc == PopHead && s.heads[c].None?
  {
    if Pops(s.cores[c].pc) {
      hide PushStepOf, NullStepOf, StartPush, StartNull;
    } else if Pushes(s.cores[c].pc) {
      hide PopStepOf, NullStepOf, StartPush, StartNull;
    } else if PushesNull(s.cores[c].pc) {
      hide PopStepOf, PushStepOf, StartPush, StartNull;
    } else {
      hide PopStepOf, PushStepOf, NullStepOf;
    }
  }

  /** Over every run: no owner ever reads NULL for its next thread exactly if at every read the last store
      into the list since the owner's test was not that of NULL. */
  lemma {:induction false} NullReadExactly(s: System, moves: seq<Move>)
    requires Inv(s) && !ReadsNull(s)
    ensures NeverReadsNull(s, moves) <==> ReadsGuarded(s, moves)
    decreases |moves|
  {
    hide ListsOk, LocksOk, PlacesOk, StatusOk, PcOk, GuardOk, StepMove, Guarded, ReadsNull;
    if moves != [] {
      ReadStep(s, moves[0]);
      if Guarded(s, moves[0]) {
        MoveKeepsInv(s, moves[0]);
        NullReadExactly(StepMove(s, moves[0]), moves[1..]);
      } else {
        assert !NeverReadsNull(StepMove(s, moves[0]), moves[1..]);
      }
    }
  }

  /** An owner becomes exposed only by a store of NULL into its list after its test, and ceases to be by
      the store of a thread. */
  lemma ExposureSteps(s: System, m: Move, q: nat)
    requires Inv(s) && !ReadsNull(s) && m.core < |s.cores| && q < |s.cores|
    ensures var pc := s.cores[m.core].pc;
            StepMove(s, m).exposed[q]
            == if pc.NullStore? && pc.queue == q then s.cores[q].pc == PopLock
               else if pc.PushStore? && pc.queue == q then false
               else s.exposed[q]
  {
    assert PcOk(s, m.core);
    hide ListsOk, LocksOk, PlacesOk, StatusOk;
  }

  /** The move stores NULL into a list whose owner is between its test and its lock. */
  predicate Catches(s: System, m: Move)
    requires Shaped(s)
  {
    && m.core < |s.cores| && s.cores[m.core].pc.NullStore?
    && s.cores[m.core].pc.queue < |s.cores| && s.cores[s.cores[m.core].pc.queue].pc == PopLock
  }

  ghost predicate NeverCatches(s: System, moves: seq<Move>)
    requires Shaped(s)
    decreases |moves|
  {
    moves != [] ==> !Catches(s, moves[0]) && NeverCatches(StepMove(s, moves[0]), moves[1..])
  }

  /** So no NULL is read if no store of NULL ever catches an owner there. */
  lemma {:induction false} NoReadWithoutCatch(s: System, moves: seq<Move>)
    requires Inv(s) && !ReadsNull(s) && (forall q :: 0 <= q < |s.exposed| ==> !s.exposed[q]) && NeverCatches(s, moves)
    ensures NeverReadsNull(s, moves)
    decreases |moves|
  {
    hide ListsOk, LocksOk, PlacesOk, StatusOk, PcOk, GuardOk, Step, ReadsNull;
    if moves != [] {
      var m, s' := moves[0], StepMove(s, moves[0]);
      ReadStep(s, m);
      MoveKeepsInv(s, m);
      forall q | 0 <= q < |s'.exposed|
        ensures !s'.exposed[q]
      {
        if m.core < |s.cores| {
          ExposureSteps(s, m, q);
        }
      }
      NoReadWithoutCatch(s', moves[1..]);
    }
  }

  // ----- runs in which no creation fails

  lemma StepAvoidsNull(s: System, c: nat, a: Action)
    requires Shaped(s) && c < |s.cores| && !a.PushFails? && !PushesNull(s.cores[c].pc)
    ensures !PushesNull(Step(s, c, a).cores[c].pc)
  {
    if Pops(s.cores[c].pc) {
      hide PushStepOf, NullStepOf, StartPush, StartNull;
    } else if Pushes(s.cores[c].pc) {
      hide PopStepOf, NullStepOf, StartPush, StartNull;
    } else {
      hide PopStepOf, PushStepOf, NullStepOf;
    }
  }

  /** As long as create_thread never fails no store of NULL is made. */
  lemma {:induction false} NoNullWithoutFailure(s: System, moves: seq<Move>)
    requires Shaped(s) && !CreationFails(moves) && forall b :: 0 <= b < |s.cores| ==> !PushesNull(s.cores[b].pc)
    ensures StoresMeetEmpty(s, moves)
    decreases |moves|
  {
    hide Step, PushesNull;
    if moves != [] {
      var m, s' := moves[0], StepMove(s, moves[0]);
      assert !m.action.PushFails?;
      assert !CreationFails(moves[1..]) by {
        assert forall k :: 0 <= k < |moves[1..]| ==> moves[1..][k] == moves[k + 1];
      }
      if m.core < |s.cores| {
        StepAvoidsNull(s, m.core, m.action);
        NullStoreIsPush(s.cores[m.core].pc);
      }
      NoNullWithoutFailure(s', moves[1..]);
    }
  }

  lemma NullStoreIsPush(pc: Pc)
    ensures pc.NullStore? ==> PushesNull(pc)
  {
  }

  /** In every interleaving from the start in which each store of NULL meets an empty list: no owner reads
      NULL for its next thread, though it tests its list before it takes the lock; two cores are never in
      the section of one list; every list read through the links ends and meets no thread twice; no listed
      thread is marked RUNNING; and every created thread is in exactly one place. Where create_thread never
      fails there are no such stores. */
  lemma QueuesAreSafe(n: nat, moves: seq<Move>)
    requires StoresMeetEmpty(Start(n), moves)
    ensures var s := RunMoves(Start(n), moves);
            && |s.cores| == n
            && (forall c :: 0 <= c < n ==> s.cores[c].pc != PopNext(None) && s.cores[c].pc != Wild)
            && (forall b, c, q :: (0 <= b < n && 0 <= c < n && 0 <= q < n
                                   && InSection(s.cores[b].pc, b, q) && InSection(s.cores[c].pc, c, q)) ==> b == c)
            && (forall q :: 0 <= q < n ==>
                              && IsList(s.next, s.heads[q], s.queues[q])
                              && forall i, j :: 0 <= i < j < |s.queues[q]| ==> s.queues[q][i] != s.queues[q][j])
            && (forall t: Tid, q :: 0 <= q < n && t in s.queues[q] ==> t !in s.running)
            && (forall t: Tid :: t in s.place ==> exists p :: At(s, t, p))
            && (forall t: Tid, p, r :: At(s, t, p) && At(s, t, r) ==> p == r && t in s.place)
  {
    hide At, RunMoves, IsList, InSection;
    StartOk(n);
    RunsKeepClean(Start(n), moves);
    SafeUntilNull(n, moves);
    var s := RunMoves(Start(n), moves);
    CleanState(s);
    hide ListsOk, LocksOk, PlacesOk, StatusOk;
    forall c | 0 <= c < n
      ensures s.cores[c].pc != PopNext(None) && s.cores[c].pc != Wild
    {
      assert PcOk(s, c);
    }
    forall t: Tid | t in s.place
      ensures exists p :: At(s, t, p)
    {
      assert Placed(s, t);
    }
  }

  lemma StepKeepsThreads(s: System, c: nat, a: Action)
    requires Shaped(s) && c < |s.cores|
    ensures s.place.Keys <= Step(s, c, a).place.Keys
  {
  }

  lemma {:induction false} RunKeepsThreads(s: System, moves: seq<Move>)
    requires Shaped(s)
    ensures s.place.Keys <= RunMoves(s, moves).place.Keys
    decreases |moves|
  {
    hide Step;
    if moves != [] {
      if moves[0].core < |s.cores| {
        StepKeepsThreads(s, moves[0].core, moves[0].action);
      }
      RunKeepsThreads(StepMove(s, moves[0]), moves[1..]);
    }
  }

  /** ... and a thread that is in some list or in some core's hands stays in one. */
  lemma ThreadsStay(s: System, moves: seq<Move>, t: Tid)
    requires Clean(s) && StoresMeetEmpty(s, moves) && Placed(s, t)
    ensures Placed(RunMoves(s, moves), t)
  {
    hide RunMoves, At, Holds, StoresMeetEmpty;
    RunsKeepClean(s, moves);
    RunKeepsThreads(s, moves);
    var p :| At(s, t, p);
    ShownIsPlace(s, t, p);
    hide Inv;
    CleanState(RunMoves(s, moves));
  }

  // ----- the lists as stacks

  /** The contents list q has after a step of core c: one store pushes at the front, one store takes the
      first, a store of NULL drops all, every other step leaves it. */
  function Expected(s: System, c: nat, q: nat): seq<Tid>
    requires Shaped(s) && c < |s.cores| && q < |s.cores|
  {
    match s.cores[c].pc
    case PushStore(p, t, _) => if p == q then [t] + s.queues[q] else s.queues[q]
    case PopStore(_, _) => if q == c && s.queues[q] != [] then s.queues[q][1..] else s.queues[q]
    case NullStore(p, _) => if p == q then [] else s.queues[q]
    case _ => s.queues[q]
  }

  /** Seen through the links, each list is a stack whose pushes and pops are single stores: what the head
      spelled out before a step, pushed on, popped or dropped, is what it spells out after. */
  lemma ListsAreStacks(s: System, c: nat, a: Action, q: nat)
    requires Inv(s) && c < |s.cores| && q < |s.cores| && s.cores[c].pc != PopNext(None)
    ensures var s' := Step(s, c, a);
            && IsList(s'.next, s'.heads[q], Expected(s, c, q))
            && (s.cores[c].pc.PopStore? ==>
                  && s.queues[c] != [] && s.heads[c] == Some(s.queues[c][0])
                  && s'.cores[c].pc == PopUnlock(s.queues[c][0]))
  {
    hide PlacesOk, LocksOk, StatusOk, Holds, Runs, InSection;
    StepKeepsInv(s, c, a);
    assert PcOk(s, c) && IsList(s.next, s.heads[c], s.queues[c]);
    assert IsList(Step(s, c, a).next, Step(s, c, a).heads[q], Step(s, c, a).queues[q]);
  }

  // ----- a failed creation, and what it does

  lemma {:induction false} RunAppend(s: System, first: seq<Move>, then_: seq<Move>)
    requires Shaped(s)
    ensures RunMoves(s, first + then_) == RunMoves(RunMoves(s, first), then_)
    decreases |first|
  {
    if first == [] {
      assert first + then_ == then_;
    } else {
      assert (first + then_)[1..] == first[1..] + then_;
      RunAppend(StepMove(s, first[0]), first[1..], then_);
    }
  }

  /** n undisturbed steps of a core. */
  function Steps(c: nat, n: nat): seq<Move> { seq(n, _ => Move(c, Continue)) }

  lemma OneStep(s: System, c: nat, n: nat)
    requires Shaped(s) && c < |s.cores| && n > 0
    ensures RunMoves(s, Steps(c, n)) == RunMoves(Step(s, c, Continue), Steps(c, n - 1))
  {
    hide Step;
    assert Steps(c, n)[1..] == Steps(c, n - 1);
  }

  lemma NoStep(s: System, c: nat)
    requires Shaped(s)
    ensures RunMoves(s, Steps(c, 0)) == s
  {
  }

  /** What a push whose creation failed leaves: its list is empty and its threads are lost, the word of
      page 0 holds the old head, and the pushing core goes on. */
  ghost predicate NullPushed(s: System, s': System, q: nat)
    requires Shaped(s) && q < |s.cores|
  {
    && s' == s.(heads := s.heads[q := None], locks := s'.locks, holders := s'.holders, nullLink := s.heads[q],
                queues := s.queues[q := []], place := Lose(s.place, s.queues[q]), nullList := s.queues[q],
                exposed := s.exposed[q := s.cores[q].pc.PopLock?])
    && s'.locks == s.locks[q := false]
  }

  /** A push whose creation failed, undisturbed. */
  lemma NullPush(s: System, b: nat, q: nat)
    requires Inv(s) && b < |s.cores| && q < |s.cores| && !s.locks[q]
    requires s.cores[b].pc == Scheduler || s.cores[b].pc == Task
    ensures var s' := RunMoves(s, PushMoves(b, PushFails(q)));
            Inv(s') && NullPushed(s, s', q)
  {
    hide Step, Inv, NullPushed, SetPc, Acquire, Release, DropList, RunMoves, PushMoves;
    InvShape(s);
    NullPushInv(s, b, q);
    var s1 := Step(Step(s, b, PushFails(q)), b, Continue);
    var s3 := Step(Step(s1, b, Continue), b, Continue);
    SixSteps(s, b, PushFails(q));
    NullTaken(s, b, q);
    NullPushPc(s, b, q);
    NullLinked(s1, b, q);
    NullStored(s3, b, q);
    NullPushState(s, b, q, BackTo(s.cores[b].pc));
  }

  lemma NullPushPc(s: System, b: nat, q: nat)
    requires Shaped(s) && b < |s.cores| && q < |s.cores|
    ensures forall ret: Return :: SetPc(Acquire(s, b, q), b, NullHead(q, ret)).cores[b].pc == NullHead(q, ret)
    ensures forall s1: System, ret: Return :: Shaped(s1) && b < |s1.cores| && q < |s1.cores| ==>
              SetPc(s1.(nullLink := s1.heads[q], nullList := s1.queues[q]), b, NullStore(q, ret)).cores[b].pc
              == NullStore(q, ret)
  {
  }

  /** The six steps in one. */
  lemma NullPushState(s: System, b: nat, q: nat, ret: Return)
    requires Shaped(s) && b < |s.cores| && q < |s.cores| && s.cores[b].pc == AfterPush(ret)
    ensures var s1 := SetPc(Acquire(s, b, q), b, NullHead(q, ret));
            var s3 := SetPc(s1.(nullLink := s1.heads[q], nullList := s1.queues[q]), b, NullStore(q, ret));
            NullPushed(s, SetPc(Release(DropList(s3, q), q), b, AfterPush(ret)), q)
  {
    var s1 := SetPc(Acquire(s, b, q), b, NullHead(q, ret));
    var s3 := SetPc(s1.(nullLink := s1.heads[q], nullList := s1.queues[q]), b, NullStore(q, ret));
    var s' := SetPc(Release(DropList(s3, q), q), b, AfterPush(ret));
    assert s'.cores == s.cores;
    assert s3.cores[q].pc.PopLock? <==> s.cores[q].pc.PopLock?;
    assert s'.locks == s.locks[q := false];
    hide Lose;
  }

  lemma NullPushInv(s: System, b: nat, q: nat)
    requires Inv(s) && b < |s.cores| && q < |s.cores| && !s.locks[q]
    requires s.cores[b].pc == Scheduler || s.cores[b].pc == Task
    ensures Inv(RunMoves(s, PushMoves(b, PushFails(q))))
  {
    hide Step, ListsOk, LocksOk, PlacesOk, StatusOk, PcOk, GuardOk, SetPc, Acquire, Release, DropList, RunMoves;
    var s0 := Step(s, b, PushFails(q));
    var s1 := Step(s0, b, Continue);
    var s2 := Step(s1, b, Continue);
    var s3 := Step(s2, b, Continue);
    var s4 := Step(s3, b, Continue);
    SixSteps(s, b, PushFails(q));
    NullTaken(s, b, q);
    NullPushPc(s, b, q);
    NullLinked(s1, b, q);
    NullStored(s3, b, q);
    StepKeepsInv(s, b, PushFails(q));
    StepKeepsInv(s0, b, Continue);
    StepKeepsInv(s1, b, Continue);
    StepKeepsInv(s2, b, Continue);
    StepKeepsInv(s3, b, Continue);
    StepKeepsInv(s4, b, Continue);
  }

  function BackTo(pc: Pc): Return { if pc == Scheduler then ToScheduler else ToTask }

  lemma NullTaken(s: System, b: nat, q: nat)
    requires Shaped(s) && b < |s.cores| && q < |s.cores| && !s.locks[q]
    requires s.cores[b].pc == Scheduler || s.cores[b].pc == Task
    ensures var s0 := Step(s, b, PushFails(q));
            && s0.cores[b].pc == NullLock(q, BackTo(s.cores[b].pc))
            && Step(s0, b, Continue) == SetPc(Acquire(s, b, q), b, NullHead(q, BackTo(s.cores[b].pc)))
  {
    hide PopStepOf, PushStepOf, StartPush;
    var s0 := Step(s, b, PushFails(q));
    assert s0 == SetPc(s, b, NullLock(q, BackTo(s.cores[b].pc)));
  }

  lemma NullLinked(s: System, b: nat, q: nat)
    requires Shaped(s) && b < |s.cores| && q < |s.cores| && s.cores[b].pc.NullHead? && s.cores[b].pc.queue == q
    ensures var s2 := Step(s, b, Continue);
            && s2.cores[b].pc == NullLink(q, s.heads[q], s.cores[b].pc.ret)
            && Step(s2, b, Continue)
               == SetPc(s.(nullLink := s.heads[q], nullList := s.queues[q]), b, NullStore(q, s.cores[b].pc.ret))
  {
    hide PopStepOf, PushStepOf, StartPush;
    var s2 := Step(s, b, Continue);
    assert s2 == SetPc(s, b, NullLink(q, s.heads[q], s.cores[b].pc.ret));
  }

  lemma NullStored(s: System, b: nat, q: nat)
    requires Shaped(s) && b < |s.cores| && q < |s.cores| && s.cores[b].pc.NullStore? && s.cores[b].pc.queue == q
    ensures var s4 := Step(s, b, Continue);
            && s4.cores[b].pc == PushUnlock(q, s.cores[b].pc.ret)
            && Step(s4, b, Continue) == SetPc(Release(DropList(s, q), q), b, AfterPush(s.cores[b].pc.ret))
  {
    hide PopStepOf, StartPush;
    var s4 := Step(s, b, Continue);
    assert s4 == SetPc(DropList(s, q), b, PushUnlock(q, s.cores[b].pc.ret));
  }

  /** A push, whether or not its creation failed. */
  function PushMoves(b: nat, a: Action): seq<Move> { [Move(b, a)] + Steps(b, 5) }

  lemma SixSteps(s: System, b: nat, a: Action)
    requires Shaped(s) && b < |s.cores|
    ensures var s0 := Step(s, b, a);
            var s1 := Step(s0, b, Continue);
            var s2 := Step(s1, b, Continue);
            var s3 := Step(s2, b, Continue);
            var s4 := Step(s3, b, Continue);
            RunMoves(s, PushMoves(b, a)) == Step(s4, b, Continue)
  {
    hide Step, RunMoves, Steps, PushMoves;
    var s0 := Step(s, b, a);
    FirstStep(s, b, a);
    var s1 := Step(s0, b, Continue);
    var s2 := Step(s1, b, Continue);
    OneStep(s0, b, 5);
    OneStep(s1, b, 4);
    ThreeSteps(s2, b);
  }

  lemma FirstStep(s: System, b: nat, a: Action)
    requires Shaped(s) && b < |s.cores|
    ensures RunMoves(s, PushMoves(b, a)) == RunMoves(Step(s, b, a), Steps(b, 5))
  {
    hide Step;
    assert PushMoves(b, a)[1..] == Steps(b, 5);
  }

  /** A failed creation drops the list: the head is NULL, the lock is free, and no thread that was in the
      list is in any list or in any core's hands. */
  lemma FailedCreationDropsList(s: System, b: nat, q: nat)
    requires Inv(s) && b < |s.cores| && q < |s.cores| && !s.locks[q]
    requires s.cores[b].pc == Scheduler || s.cores[b].pc == Task
    ensures var s' := RunMoves(s, PushMoves(b, PushFails(q)));
            && s'.cores == s.cores && s'.heads == s.heads[q := None] && !s'.locks[q] && s'.nullLink == s.heads[q]
            && forall t :: t in s.queues[q] ==> t in s'.place && !Placed(s', t)
  {
    hide RunMoves, PushMoves, IsList, Placed, Holds, Runs, PcOk, GuardOk, ListsOk, LocksOk, StatusOk, PlacesOk;
    NullPush(s, b, q);
    var s' := RunMoves(s, PushMoves(b, PushFails(q)));
    forall t | t in s.queues[q]
      ensures t in s'.place && !Placed(s', t)
    {
      ListedIsPlaced(s, t, q);
      PlacedExactly(s', t);
    }
  }

  lemma ListedIsPlaced(s: System, t: Tid, q: nat)
    requires Inv(s) && q < |s.queues| && t in s.queues[q]
    ensures t in s.place
  {
    hide ListsOk, LocksOk, StatusOk, PcOk, GuardOk;
  }

  /** An owner caught between its test and its lock reads NULL. It then puts back what page 0 holds and
      goes on with the stack pointer found there. */
  lemma ExposedOwnerReadsNull(s: System, b: nat, q: nat)
    requires Inv(s) && b < |s.cores| && q < |s.cores| && !s.locks[q]
    requires s.cores[b].pc == Scheduler || s.cores[b].pc == Task
    requires s.cores[q].pc == PopLock
    ensures var s' := RunMoves(s, PushMoves(b, PushFails(q)));
            var read := RunMoves(s', Steps(q, 2));
            && read.cores[q].pc == PopNext(None) && ReadsNull(read)
            && var gone := RunMoves(read, Steps(q, 3));
               gone.cores[q].pc == Wild && gone.heads[q] == s.heads[q] && !gone.locks[q]
  {
    NullPush(s, b, q);
    hide Inv;
    var s' := RunMoves(s, PushMoves(b, PushFails(q)));
    var s1 := Step(s', q, Continue);
    var s2 := Step(s1, q, Continue);
    TwoSteps(s', q);
    PopOfEmpty(s', q);
    ThreeSteps(s2, q);
    PopOfNull(s2, q);
    hide Step, RunMoves, Steps;
  }

  /** The converse fails: a thread pushed after the store of NULL hides it from the caught owner. */
  lemma PushHidesNull(s: System, b: nat, q: nat, t: Tid)
    requires Inv(s) && b < |s.cores| && q < |s.cores| && !s.locks[q] && t !in s.place
    requires s.cores[b].pc == Scheduler && s.cores[q].pc == PopLock
    ensures var s' := RunMoves(s, PushMoves(b, PushFails(q)));
            var s2 := RunMoves(s', PushMoves(b, Push(q, t, None)));
            s'.exposed[q] && RunMoves(s2, Steps(q, 2)).cores[q].pc == PopNext(Some(t))
  {
    NullPush(s, b, q);
    var s' := RunMoves(s, PushMoves(b, PushFails(q)));
    ThreadPush(s', b, q, t, None);
    hide Inv, Step, RunMoves, PushMoves;
    var s2 := RunMoves(s', PushMoves(b, Push(q, t, None)));
    TwoSteps(s2, q);
    PopOfHead(s2, q);
  }

  lemma PopOfHead(s: System, q: nat)
    requires Shaped(s) && q < |s.cores| && s.cores[q].pc == PopLock && !s.locks[q]
    ensures Step(Step(s, q, Continue), q, Continue).cores[q].pc == PopNext(s.heads[q])
  {
    hide PushStepOf, NullStepOf, StartPush, StartNull;
    assert Step(s, q, Continue) == SetPc(Acquire(s, q, q), q, PopHead);
  }

  lemma TwoSteps(s: System, c: nat)
    requires Shaped(s) && c < |s.cores|
    ensures RunMoves(s, Steps(c, 2)) == Step(Step(s, c, Continue), c, Continue)
  {
    hide Step;
    OneStep(s, c, 2);
    OneStep(Step(s, c, Continue), c, 1);
    NoStep(Step(Step(s, c, Continue), c, Continue), c);
  }

  lemma ThreeSteps(s: System, c: nat)
    requires Shaped(s) && c < |s.cores|
    ensures RunMoves(s, Steps(c, 3)) == Step(Step(Step(s, c, Continue), c, Continue), c, Continue)
  {
    hide Step;
    OneStep(s, c, 3);
    TwoSteps(Step(s, c, Continue), c);
  }

  lemma PopOfEmpty(s: System, q: nat)
    requires Shaped(s) && q < |s.cores| && s.cores[q].pc == PopLock && !s.locks[q] && s.heads[q].None?
    ensures var s2 := Step(Step(s, q, Continue), q, Continue);
            s2.cores[q].pc == PopNext(None) && s2.nullLink == s.nullLink
  {
    hide PushStepOf, NullStepOf, StartPush, StartNull;
    assert Step(s, q, Continue) == SetPc(Acquire(s, q, q), q, PopHead);
  }

  lemma PopOfNull(s: System, q: nat)
    requires Shaped(s) && q < |s.cores| && s.cores[q].pc == PopNext(None)
    ensures var s3 := Step(Step(Step(s, q, Continue), q, Continue), q, Continue);
            s3.cores[q].pc == Wild && s3.heads[q] == s.nullLink && !s3.locks[q]
  {
    hide PushStepOf, NullStepOf, StartPush, StartNull;
    var s1 := Step(s, q, Continue);
    assert s1 == SetPc(s, q, PopNullStore(s.nullLink));
    var s2 := Step(s1, q, Continue);
    assert s2.cores[q].pc == PopNullUnlock && s2.heads[q] == s.nullLink;
  }

  // ----- a run from the start that does all this

  /** A push of thread t, undisturbed, from a task or from the scheduler loop, whatever the new thread's memory held:
      the thread is the first of the list, its link is the old head, the lock is free and the core goes on where it
      was. */
  lemma ThreadPush(s: System, b: nat, q: nat, t: Tid, garbage: Option<Tid>)
    requires Inv(s) && b < |s.cores| && q < |s.cores| && !s.locks[q] && t !in s.place
    requires s.cores[b].pc == Scheduler || s.cores[b].pc == Task
    ensures var s' := RunMoves(s, PushMoves(b, Push(q, t, garbage)));
            && Inv(s')
            && s' == s.(heads := s.heads[q := Some(t)], queues := s.queues[q := [t] + s.queues[q]],
                        next := s.next[t := s.heads[q]], place := s.place[t := InQueue(q)],
                        holders := s.holders[q := None], exposed := s.exposed[q := false])
  {
    hide Step, Inv, RunMoves, PushMoves;
    assert Shaped(s) by {
      InvShape(s);
    }
    var a, ret := Push(q, t, garbage), BackTo(s.cores[b].pc);
    var s0 := Step(s, b, a);
    SixSteps(s, b, a);
    PushCreated(s, b, q, t, garbage);
    StepKeepsInv(s, b, a);
    FiveStepsOfPush(s0, b, q, t, ret);
    assert RunMoves(s, PushMoves(b, a)).cores == s.cores;
    assert s.place[t := OnCore(b)][t := InQueue(q)] == s.place[t := InQueue(q)];
  }

  lemma InvShape(s: System)
    requires Inv(s)
    ensures Shaped(s)
  {
  }

  /** From the lock to the unlock. */
  lemma FiveStepsOfPush(s: System, b: nat, q: nat, t: Tid, ret: Return)
    requires Inv(s) && b < |s.cores| && q < |s.cores| && s.cores[b].pc == PushLock(q, t, ret) && !s.locks[q]
    ensures var s1 := Step(s, b, Continue);
            var s2 := Step(s1, b, Continue);
            var s3 := Step(s2, b, Continue);
            var s4 := Step(s3, b, Continue);
            var r := Step(s4, b, Continue);
            && Inv(r)
            && r == s.(cores := s.cores[b := Core(AfterPush(ret), s.cores[b].cur)],
                       heads := s.heads[q := Some(t)], queues := s.queues[q := [t] + s.queues[q]],
                       next := s.next[t := s.heads[q]], place := s.place[t := InQueue(q)],
                       holders := s.holders[q := None], exposed := s.exposed[q := false])
  {
    hide Step, Inv, AfterPush;
    InvShape(s);
    var s1 := Step(s, b, Continue);
    var s2 := Step(s1, b, Continue);
    var s3 := Step(s2, b, Continue);
    var s4 := Step(s3, b, Continue);
    PushLinked(s, b, q, t, ret);
    PushStored(s3, b, q, t, ret);
    StepKeepsInv(s, b, Continue);
    StepKeepsInv(s1, b, Continue);
    StepKeepsInv(s2, b, Continue);
    StepKeepsInv(s3, b, Continue);
    StepKeepsInv(s4, b, Continue);
    assert Step(s4, b, Continue).cores == s.cores[b := Core(AfterPush(ret), s.cores[b].cur)];
    assert s.locks[q := true][q := false] == s.locks;
    assert s.holders[q := Some(b)][q := None] == s.holders[q := None];
  }

  lemma PushCreated(s: System, b: nat, q: nat, t: Tid, garbage: Option<Tid>)
    requires Shaped(s) && b < |s.cores| && q < |s.cores| && t !in s.place
    requires s.cores[b].pc == Scheduler || s.cores[b].pc == Task
    ensures Step(s, b, Push(q, t, garbage))
            == s.(cores := s.cores[b := Core(PushLock(q, t, BackTo(s.cores[b].pc)), s.cores[b].cur)],
                  next := s.next[t := garbage], place := s.place[t := OnCore(b)])
  {
    hide PopStepOf, PushStepOf, NullStepOf, StartNull;
  }

  /** From the lock to the link. */
  lemma PushLinked(s: System, b: nat, q: nat, t: Tid, ret: Return)
    requires Shaped(s) && b < |s.cores| && q < |s.cores| && s.cores[b].pc == PushLock(q, t, ret) && !s.locks[q]
    ensures var s1 := Step(s, b, Continue);
            var s2 := Step(s1, b, Continue);
            var s3 := Step(s2, b, Continue);
            && s1.cores[b].pc == PushHead(q, t, ret) && s2.cores[b].pc == PushLink(q, t, s.heads[q], ret)
            && s3 == s.(cores := s.cores[b := Core(PushStore(q, t, ret), s.cores[b].cur)],
                        locks := s.locks[q := true], holders := s.holders[q := Some(b)],
                        next := s.next[t := s.heads[q]])
  {
    hide PopStepOf, NullStepOf, StartPush, StartNull;
    var cur := s.cores[b].cur;
    var held := s.(locks := s.locks[q := true], holders := s.holders[q := Some(b)]);
    var s1 := Step(s, b, Continue);
    assert s1 == held.(cores := s.cores[b := Core(PushHead(q, t, ret), cur)]);
    var s2 := Step(s1, b, Continue);
    assert s2 == held.(cores := s.cores[b := Core(PushLink(q, t, s.heads[q], ret), cur)]);
    assert Step(s2, b, Continue).cores == s.cores[b := Core(PushStore(q, t, ret), cur)];
  }

  /** The store and the unlock. */
  lemma PushStored(s: System, b: nat, q: nat, t: Tid, ret: Return)
    requires Shaped(s) && b < |s.cores| && q < |s.cores| && s.cores[b].pc == PushStore(q, t, ret)
    ensures var s4 := Step(s, b, Continue);
            && s4.cores[b].pc == PushUnlock(q, ret)
            && Step(s4, b, Continue)
               == s.(cores := s.cores[b := Core(AfterPush(ret), s.cores[b].cur)],
                     heads := s.heads[q := Some(t)], queues := s.queues[q := [t] + s.queues[q]],
                     place := s.place[t := InQueue(q)], exposed := s.exposed[q := false],
                     locks := s.locks[q := false], holders := s.holders[q := None])
  {
    hide PopStepOf, NullStepOf, StartPush, StartNull, AfterPush;
    var s4 := Step(s, b, Continue);
    assert s4.cores == s.cores[b := Core(PushUnlock(q, ret), s.cores[b].cur)];
    assert Step(s4, b, Continue).cores == s.cores[b := Core(AfterPush(ret), s.cores[b].cur)];
  }

  /** Core 0 pushes thread 7 onto the list of core 1, which then tests it. */
  function PushAndTest(): seq<Move> { PushMoves(0, Push(1, 7, None)) + Steps(1, 1) }

  lemma PushAndTestRun()
    ensures var s := RunMoves(Start(2), PushAndTest());
            && Inv(s) && s.cores[0].pc == Scheduler && s.cores[1].pc == PopLock && !s.locks[1]
            && 7 in s.queues[1]
  {
    hide RunMoves, PushMoves, Steps, ListsOk, LocksOk, StatusOk, PcOk, GuardOk, PlacesOk;
    StartOk(2);
    ThreadPush(Start(2), 0, 1, 7, None);
    var s := RunMoves(Start(2), PushMoves(0, Push(1, 7, None)));
    RunAppend(Start(2), PushMoves(0, Push(1, 7, None)), Steps(1, 1));
    OneStep(s, 1, 1);
    NoStep(Step(s, 1, Continue), 1);
    StepKeepsInv(s, 1, Continue);
    TestOfList(s, 1);
    hide Step;
  }

  lemma TestOfList(s: System, c: nat)
    requires Shaped(s) && c < |s.cores| && s.cores[c].pc == Scheduler && s.heads[c].Some?
    ensures Step(s, c, Continue) == SetPc(s, c, PopLock)
  {
  }

  /** ... then core 0 fails to create a second thread and pushes NULL: thread 7 is lost, and core 1, which
      has seen the list non-empty, reads NULL for its next thread. */
  lemma NullReadIsReached()
    ensures var moves := PushAndTest() + PushMoves(0, PushFails(1)) + Steps(1, 2);
            var s := RunMoves(Start(2), moves);
            s.cores[1].pc == PopNext(None) && ReadsNull(s) && 7 in s.place && !Placed(s, 7)
  {
    hide Step, RunMoves, Steps, PushMoves, Inv, Placed;
    PushAndTestRun();
    var s1 := RunMoves(Start(2), PushAndTest());
    ExposedOwnerReadsNull(s1, 0, 1);
    FailedCreationDropsList(s1, 0, 1);
    var s2 := RunMoves(s1, PushMoves(0, PushFails(1)));
    NullPush(s1, 0, 1);
    ReadKeepsLost(s2, 1, 7);
    RunAppend(Start(2), PushAndTest(), PushMoves(0, PushFails(1)));
    RunAppend(Start(2), PushAndTest() + PushMoves(0, PushFails(1)), Steps(1, 2));
  }

  /** Taking the lock and reading the head places no thread. */
  lemma ReadKeepsLost(s: System, q: nat, t: Tid)
    requires Inv(s) && q < |s.cores| && s.cores[q].pc == PopLock && !s.locks[q] && t in s.place && !Placed(s, t)
    requires s.heads[q].None?
    ensures var s' := RunMoves(s, Steps(q, 2)); t in s'.place && !Placed(s', t)
  {
    TwoSteps(s, q);
    PopOfEmpty(s, q);
    hide RunMoves, Steps;
    StepKeepsInv(s, q, Continue);
    StepKeepsInv(Step(s, q, Continue), q, Continue);
    PlacedExactly(s, t);
    hide Inv;
    assert Step(Step(s, q, Continue), q, Continue).place == s.place;
    PlacedExactly(Step(Step(s, q, Continue), q, Continue), t);
  }
}
