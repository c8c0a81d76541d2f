/** The ready lists of smp.c under interleaving: any core pushes onto any list under its lock, the
    owning core tests its list without the lock, pops under it, switches and yields back. One step is
    one load, one store, one lock operation or one local action of one core. A push whose create_thread
    failed goes on with NULL for its thread: page 0 is mapped, so its store through NULL succeeds, and the
    list is left empty. */
module RunQueues {
  import opened Words

  type Tid = nat

  /** Where a core that pushes goes on afterwards: its task, its scheduler loop, or, in smp_yield, the
      switch to the idle thread. */
  datatype Return = ToTask | ToScheduler | ToSwitch

  datatype Pc =
    | Scheduler                                         // top of the loop of ap_kernel_entry
    | PopLock                                           // saw a non-empty list, takes the lock
    | PopHead                                           // next = ready_list
    | PopNext(next: Option<Tid>)                        // reads next->next
    | PopStore(taken: Tid, rest: Option<Tid>)           // ready_list = next->next
    | PopUnlock(taken: Tid)
    | PopSwitch(taken: Tid)                             // cur_thread = next, switch to it
    | Task                                              // runs cur_thread
    | PushLock(queue: nat, thread: Tid, ret: Return)
    | PushHead(queue: nat, thread: Tid, ret: Return)
    | PushLink(queue: nat, thread: Tid, head: Option<Tid>, ret: Return)  // thread->next = head
    | PushStore(queue: nat, thread: Tid, ret: Return)   // ready_list = thread
    | PushUnlock(queue: nat, ret: Return)
    | NullLock(queue: nat, ret: Return)                 // create_thread failed; takes the lock all the same
    | NullHead(queue: nat, ret: Return)
    | NullLink(queue: nat, head: Option<Tid>, ret: Return)  // NULL->next = head, in page 0
    | NullStore(queue: nat, ret: Return)                // ready_list = NULL
    | YieldSwitch                                       // cur_thread = idle, switch to it
    | Halted                                            // left the loop on shutdown
    | PopNullStore(rest: Option<Tid>)                   // next was NULL: ready_list = NULL->next
    | PopNullUnlock
    | Wild                                              // runs on the stack pointer found in page 0

  /** cur is None while cur_thread is the core's idle thread. */
  datatype Core = Core(pc: Pc, cur: Option<Tid>)

  datatype Place = InQueue(core: nat) | OnCore(core: nat) | Lost

  /** Cores, list heads, lock words, next links, the threads whose status is RUNNING, and the word of page 0
      that NULL->next is. The program keeps no more; `queues`, `holders` and `place` record the lists'
      contents, who took each lock, and where each created thread is. `nullList` is what the list was that
      nullLink was read from. `exposed[c]` records that since core c tested its list the last store into it
      was that of NULL by a push. */
  datatype System = System(
    cores: seq<Core>, heads: seq<Option<Tid>>, locks: seq<bool>, next: map<Tid, Option<Tid>>, running: set<Tid>,
    nullLink: Option<Tid>,
    queues: seq<seq<Tid>>, holders: seq<Option<nat>>, place: map<Tid, Place>, nullList: seq<Tid>, exposed: seq<bool>)

  /** What a core does next where it has a choice. Push creates a thread whose next field holds
      whatever its memory held; PushFails finds no memory for one. */
  datatype Action =
    | Continue
    | Push(queue: nat, thread: Tid, garbage: Option<Tid>)
    | PushFails(queue: nat)
    | Yield
    | Shutdown

  function SetPc(s: System, c: nat, pc: Pc): System
    requires c < |s.cores|
  {
    s.(cores := s.cores[c := s.cores[c].(pc := pc)])
  }

  predicate Shaped(s: System) {
    |s.cores| == |s.heads| == |s.locks| == |s.queues| == |s.holders| == |s.exposed|
  }

  /** No other core moves. */
  ghost predicate OnlyCore(s: System, s': System, c: nat) {
    && Shaped(s) && Shaped(s') && c < |s.cores| == |s'.cores|
    && forall b :: 0 <= b < |s.cores| && b != c ==> s'.cores[b] == s.cores[b]
  }

  /** The successful test-and-set of spin_lock; a failed one changes nothing. */
  function Acquire(s: System, c: nat, q: nat): System
    requires Shaped(s) && q < |s.locks|
  {
    s.(locks := s.locks[q := true], holders := s.holders[q := Some(c)])
  }

  /** spin_unlock. */
  function Release(s: System, q: nat): System
    requires Shaped(s) && q < |s.locks|
  {
    s.(locks := s.locks[q := false], holders := s.holders[q := None])
  }

  function AfterPush(ret: Return): Pc {
    match ret
    case ToTask => Task
    case ToScheduler => Scheduler
    case ToSwitch => YieldSwitch
  }

  /** smp_push_task up to its lock: an invalid core index is ignored. */
  function StartPush(s: System, c: nat, a: Action, ret: Return): System
    requires Shaped(s) && c < |s.cores| && a.Push?
  {
    if a.queue >= |s.cores| || a.thread in s.place then s
    else
      SetPc(s.(next := s.next[a.thread := a.garbage], place := s.place[a.thread := OnCore(c)]),
            c, PushLock(a.queue, a.thread, ret))
  }

  /** smp_push_task when create_thread returns NULL, which is not tested. */
  function StartNull(s: System, c: nat, a: Action, ret: Return): System
    requires Shaped(s) && c < |s.cores| && a.PushFails?
  {
    if a.queue >= |s.cores| then s else SetPc(s, c, NullLock(a.queue, ret))
  }

  /** The threads xs are in no list and in no core's hands any more. */
  function Lose(place: map<Tid, Place>, xs: seq<Tid>): map<Tid, Place> {
    map t | t in place :: if t in xs then Lost else place[t]
  }

  /** ready_list = NULL by a push: whatever was in the list is lost. */
  function DropList(s: System, q: nat): System
    requires Shaped(s) && q < |s.cores|
  {
    s.(heads := s.heads[q := None], queues := s.queues[q := []], place := Lose(s.place, s.queues[q]),
       exposed := s.exposed[q := s.cores[q].pc.PopLock?])
  }

  /** ready_list = NULL->next by a pop that read NULL: what a push wrote there comes back. */
  function NullRest(s: System, c: nat, rest: Option<Tid>): System
    requires Shaped(s) && c < |s.cores|
  {
    s.(heads := s.heads[c := rest], queues := s.queues[c := s.nullList],
       place := map t | t in s.place :: if t in s.nullList then InQueue(c) else s.place[t],
       exposed := s.exposed[c := false])
  }

  predicate Pops(pc: Pc) {
    || pc.PopLock? || pc.PopHead? || pc.PopNext? || pc.PopStore? || pc.PopUnlock? || pc.PopSwitch?
    || pc.PopNullStore? || pc.PopNullUnlock?
  }

  /** The owner takes the first thread of its list. */
  function PopStepOf(s: System, c: nat): (r: System)
    requires Shaped(s) && c < |s.cores| && Pops(s.cores[c].pc)
    ensures OnlyCore(s, r, c)
  {
    match s.cores[c].pc
    case PopLock =>
      if s.locks[c] then s else SetPc(Acquire(s, c, c), c, PopHead)
    case PopHead => SetPc(s, c, PopNext(s.heads[c]))
    case PopNext(next) =>
      if next.None? then SetPc(s, c, PopNullStore(s.nullLink))
      else if next.value !in s.next then SetPc(s, c, Wild)
      else SetPc(s, c, PopStore(next.value, s.next[next.value]))
    case PopStore(taken, rest) =>
      SetPc(s.(heads := s.heads[c := rest],
               queues := if s.queues[c] == [] then s.queues else s.queues[c := s.queues[c][1..]],
               place := s.place[taken := OnCore(c)]),
            c, PopUnlock(taken))
    case PopUnlock(taken) => SetPc(Release(s, c), c, PopSwitch(taken))
    case PopSwitch(taken) =>
      s.(cores := s.cores[c := Core(Task, Some(taken))], running := s.running + {taken})
    case PopNullStore(rest) => SetPc(NullRest(s, c, rest), c, PopNullUnlock)
    case PopNullUnlock => SetPc(Release(s, c), c, Wild)
  }

  predicate Pushes(pc: Pc) {
    pc.PushLock? || pc.PushHead? || pc.PushLink? || pc.PushStore? || pc.PushUnlock?
  }

  /** A thread goes in front of a list. */
  function PushStepOf(s: System, c: nat): (r: System)
    requires Shaped(s) && c < |s.cores| && Pushes(s.cores[c].pc)
    ensures OnlyCore(s, r, c)
  {
    match s.cores[c].pc
    case PushLock(q, t, ret) =>
      if q >= |s.locks| || s.locks[q] then s
      else SetPc(Acquire(s, c, q), c, PushHead(q, t, ret))
    case PushHead(q, t, ret) =>
      if q >= |s.heads| then s else SetPc(s, c, PushLink(q, t, s.heads[q], ret))
    case PushLink(q, t, head, ret) => SetPc(s.(next := s.next[t := head]), c, PushStore(q, t, ret))
    case PushStore(q, t, ret) =>
      if q >= |s.heads| then s
      else
        SetPc(s.(heads := s.heads[q := Some(t)], queues := s.queues[q := [t] + s.queues[q]],
                 place := s.place[t := InQueue(q)], exposed := s.exposed[q := false]),
              c, PushUnlock(q, ret))
    case PushUnlock(q, ret) =>
      if q >= |s.locks| then s else SetPc(Release(s, q), c, AfterPush(ret))
  }

  predicate PushesNull(pc: Pc) { pc.NullLock? || pc.NullHead? || pc.NullLink? || pc.NullStore? }

  /** The same with NULL for the thread. */
  function NullStepOf(s: System, c: nat): (r: System)
    requires Shaped(s) && c < |s.cores| && PushesNull(s.cores[c].pc)
    ensures OnlyCore(s, r, c)
  {
    match s.cores[c].pc
    case NullLock(q, ret) =>
      if q >= |s.locks| || s.locks[q] then s else SetPc(Acquire(s, c, q), c, NullHead(q, ret))
    case NullHead(q, ret) =>
      if q >= |s.heads| then s else SetPc(s, c, NullLink(q, s.heads[q], ret))
    case NullLink(q, head, ret) =>
      if q >= |s.heads| then s
      else SetPc(s.(nullLink := head, nullList := s.queues[q]), c, NullStore(q, ret))
    case NullStore(q, ret) =>
      if q >= |s.heads| then s else SetPc(DropList(s, q), c, PushUnlock(q, ret))
  }

  /** One step of core c. */
  function Step(s: System, c: nat, a: Action): (r: System)
    requires Shaped(s) && c < |s.cores|
    ensures OnlyCore(s, r, c)
  {
    var core := s.cores[c];
    if Pops(core.pc) then PopStepOf(s, c)
    else if Pushes(core.pc) then PushStepOf(s, c)
    else if PushesNull(core.pc) then NullStepOf(s, c)
    else match core.pc
      case Scheduler =>
        if a.Push? then StartPush(s, c, a, ToScheduler)
        else if a.PushFails? then StartNull(s, c, a, ToScheduler)
        else if a.Shutdown? then SetPc(s, c, Halted)
        else if s.heads[c].Some? then SetPc(s, c, PopLock) else s
      case Task =>
        if a.Push? then StartPush(s, c, a, ToTask)
        else if a.PushFails? then StartNull(s, c, a, ToTask)
        else if a.Yield? && core.cur.Some? then
          SetPc(s.(running := s.running - {core.cur.value}), c, PushLock(c, core.cur.value, ToSwitch))
        else s
      case YieldSwitch => s.(cores := s.cores[c := Core(Scheduler, None)])
      case _ => s
  }

  // ----- the invariant

  /** The next links from head spell out exactly xs and end. */
  predicate IsList(next: map<Tid, Option<Tid>>, head: Option<Tid>, xs: seq<Tid>)
    decreases |xs|
  {
    if xs == [] then head.None?
    else head == Some(xs[0]) && xs[0] in next && IsList(next, next[xs[0]], xs[1..])
  }

  /** The core is between taking and releasing the lock of list q. */
  predicate InSection(pc: Pc, c: nat, q: nat) {
    match pc
    case PopHead => q == c
    case PopNext(_) => q == c
    case PopStore(_, _) => q == c
    case PopUnlock(_) => q == c
    case PushHead(p, _, _) => q == p
    case PushLink(p, _, _, _) => q == p
    case PushStore(p, _, _) => q == p
    case PushUnlock(p, _) => q == p
    case NullHead(p, _) => q == p
    case NullLink(p, _, _) => q == p
    case NullStore(p, _) => q == p
    case PopNullStore(_) => q == c
    case PopNullUnlock => q == c
    case _ => false
  }

  /** The threads a core has in its hands: the one it runs, and one between creation and the store
      that links it, or between the store that unlinks it and the switch. */
  predicate Holds(core: Core, t: Tid) {
    match core.pc
    case Task => core.cur == Some(t)
    case PopUnlock(x) => x == t
    case PopSwitch(x) => x == t
    case PushLock(_, x, ret) => x == t || (ret == ToTask && core.cur == Some(t))
    case PushHead(_, x, ret) => x == t || (ret == ToTask && core.cur == Some(t))
    case PushLink(_, x, _, ret) => x == t || (ret == ToTask && core.cur == Some(t))
    case PushStore(_, x, ret) => x == t || (ret == ToTask && core.cur == Some(t))
    case PushUnlock(_, ret) => ret == ToTask && core.cur == Some(t)
    case NullLock(_, ret) => ret == ToTask && core.cur == Some(t)
    case NullHead(_, ret) => ret == ToTask && core.cur == Some(t)
    case NullLink(_, _, ret) => ret == ToTask && core.cur == Some(t)
    case NullStore(_, ret) => ret == ToTask && core.cur == Some(t)
    case _ => false
  }

  predicate ReturnOk(core: Core, c: nat, q: nat, t: Tid, ret: Return) {
    match ret
    case ToTask => core.cur.Some? && core.cur != Some(t)
    case ToScheduler => core.cur.None?
    case ToSwitch => core.cur == Some(t) && q == c
  }

  /** What a program counter promises about the shared state and the current thread. */
  predicate PcOk(s: System, c: nat)
    requires Shaped(s) && c < |s.cores|
  {
    var core := s.cores[c];
    match core.pc
    case Scheduler => core.cur.None?
    case PopLock => core.cur.None?
    case PopHead => core.cur.None?
    case PopNext(next) =>
      core.cur.None? && if next.None? then s.queues[c] == [] else s.queues[c] != [] && next.value == s.queues[c][0]
    case PopStore(taken, rest) =>
      && core.cur.None? && s.queues[c] != [] && taken == s.queues[c][0]
      && taken in s.next && rest == s.next[taken]
    case PopUnlock(_) => core.cur.None?
    case PopSwitch(_) => core.cur.None?
    case Task => core.cur.Some?
    case PushLock(q, t, ret) => q < |s.cores| && ReturnOk(core, c, q, t, ret)
    case PushHead(q, t, ret) => q < |s.cores| && ReturnOk(core, c, q, t, ret)
    case PushLink(q, t, head, ret) => q < |s.cores| && ReturnOk(core, c, q, t, ret) && head == s.heads[q]
    case PushStore(q, t, ret) =>
      q < |s.cores| && ReturnOk(core, c, q, t, ret) && t in s.next && s.next[t] == s.heads[q]
    case PushUnlock(q, ret) =>
      && q < |s.cores| && (ret == ToScheduler <==> core.cur.None?) && (ret == ToSwitch ==> q == c)
    case NullLock(q, ret) => NullOk(s, core, q, ret)
    case NullHead(q, ret) => NullOk(s, core, q, ret)
    case NullLink(q, head, ret) => NullOk(s, core, q, ret) && head == s.heads[q]
    case NullStore(q, ret) => NullOk(s, core, q, ret)
    case PopNullStore(_) => false
    case PopNullUnlock => false
    case Wild => false
    case YieldSwitch => core.cur.Some?
    case Halted => core.cur.None?
  }

  predicate NullOk(s: System, core: Core, q: nat, ret: Return)
    requires Shaped(s)
  {
    q < |s.cores| && ret != ToSwitch && (ret == ToScheduler <==> core.cur.None?)
  }

  /** Between its test and its read a core's list is empty exactly if the core is exposed, and what it has
      read is NULL exactly then; elsewhere it is not exposed. */
  predicate GuardOk(s: System, c: nat)
    requires Shaped(s) && c < |s.cores|
  {
    match s.cores[c].pc
    case PopLock => s.exposed[c] <==> s.queues[c] == []
    case PopHead => s.exposed[c] <==> s.queues[c] == []
    case PopNext(next) => s.exposed[c] <==> next.None?
    case _ => !s.exposed[c]
  }

  ghost predicate ListsOk(s: System)
    requires Shaped(s)
  {
    forall q :: 0 <= q < |s.queues| ==>
                  && IsList(s.next, s.heads[q], s.queues[q])
                  && forall i, j :: 0 <= i < j < |s.queues[q]| ==> s.queues[q][i] != s.queues[q][j]
  }

  /** A lock word is set exactly while some core is in the section, and only the core that set it is. */
  ghost predicate LocksOk(s: System)
    requires Shaped(s)
  {
    && (forall q :: 0 <= q < |s.locks| ==> s.locks[q] == s.holders[q].Some?)
    && (forall q :: 0 <= q < |s.locks| && s.holders[q].Some? ==> s.holders[q].value < |s.cores|)
    && (forall c, q :: 0 <= c < |s.cores| && 0 <= q < |s.locks| ==>
                         (InSection(s.cores[c].pc, c, q) <==> s.holders[q] == Some(c)))
  }

  /** A thread is in a list, or in a core's hands, exactly if that is its place. */
  ghost predicate PlacesOk(s: System)
    requires Shaped(s)
  {
    && (forall t: Tid, q :: 0 <= q < |s.queues| ==>
                              (t in s.queues[q] <==> t in s.place && s.place[t] == InQueue(q)))
    && (forall t: Tid, c :: 0 <= c < |s.cores| ==>
                              (Holds(s.cores[c], t) <==> t in s.place && s.place[t] == OnCore(c)))
    && (forall t :: t in s.place ==> s.place[t].Lost? || s.place[t].core < |s.cores|)
  }

  /** A thread is marked RUNNING exactly while it is the current thread of a core that has not begun
      to yield it. */
  ghost predicate StatusOk(s: System) {
    forall t: Tid :: t in s.running <==>
                       && t in s.place && s.place[t].OnCore?
                       && s.place[t].core < |s.cores| && Runs(s.cores[s.place[t].core], t)
  }

  predicate Runs(core: Core, t: Tid) {
    core.cur == Some(t) &&
    match core.pc
    case Task => true
    case PushLock(_, _, ret) => ret == ToTask
    case PushHead(_, _, ret) => ret == ToTask
    case PushLink(_, _, _, ret) => ret == ToTask
    case PushStore(_, _, ret) => ret == ToTask
    case PushUnlock(_, ret) => ret == ToTask
    case NullLock(_, ret) => ret == ToTask
    case NullHead(_, ret) => ret == ToTask
    case NullLink(_, _, ret) => ret == ToTask
    case NullStore(_, ret) => ret == ToTask
    case _ => false
  }

  /** What holds until a core reads NULL for its next thread. */
  ghost predicate Inv(s: System) {
    && Shaped(s)
    && ListsOk(s) && LocksOk(s) && PlacesOk(s) && StatusOk(s)
    && forall c :: 0 <= c < |s.cores| ==> PcOk(s, c) && GuardOk(s, c)
  }

  // ----- every step keeps it

  lemma {:induction false} ListIgnoresOthers(next: map<Tid, Option<Tid>>, head: Option<Tid>, xs: seq<Tid>,
                                             t: Tid, v: Option<Tid>)
    requires IsList(next, head, xs) && t !in xs
    ensures IsList(next[t := v], head, xs)
    decreases |xs|
  {
    if xs != [] {
      ListIgnoresOthers(next, next[xs[0]], xs[1..], t, v);
    }
  }

  /** The lists after a write to the link of a thread that is in no list. */
  lemma ListsIgnore(s: System, t: Tid, v: Option<Tid>, q: nat)
    requires Shaped(s) && ListsOk(s) && q < |s.queues| && t !in s.queues[q]
    ensures IsList(s.next[t := v], s.heads[q], s.queues[q])
  {
    ListIgnoresOthers(s.next, s.heads[q], s.queues[q], t, v);
  }

  /** What a core holds is in no list and in no other core's hands. */
  lemma HeldElsewhereNot(s: System, c: nat, t: Tid)
    requires Shaped(s) && PlacesOk(s) && c < |s.cores| && Holds(s.cores[c], t)
    ensures forall q :: 0 <= q < |s.queues| ==> t !in s.queues[q]
    ensures forall b :: 0 <= b < |s.cores| && b != c ==> !Holds(s.cores[b], t)
    ensures t in s.place && s.place[t] == OnCore(c)
  {
    hide Holds;
    forall q | 0 <= q < |s.queues|
      ensures t !in s.queues[q]
    {
      assert s.place[t] != InQueue(q);
    }
    forall b | 0 <= b < |s.cores| && b != c
      ensures !Holds(s.cores[b], t)
    {
      assert s.place[t] != OnCore(b);
    }
  }

  /** Links that another core relies on. */
  predicate LinkNeeded(s: System, b: nat, t: Tid)
    requires Shaped(s) && b < |s.cores|
  {
    Holds(s.cores[b], t) || t in s.queues[b]
  }

  /** A core that does not move keeps its promise if the lists whose lock it has taken and the links it
      relies on stay. */
  lemma OthersKeepPromise(s: System, s': System, c: nat, b: nat)
    requires Shaped(s) && Shaped(s') && b < |s.cores| == |s'.cores| && PcOk(s, b)
    requires s'.cores[b] == s.cores[b]
    requires forall q :: 0 <= q < |s.cores| && InSection(s.cores[b].pc, b, q) ==>
                           s'.heads[q] == s.heads[q] && s'.queues[q] == s.queues[q]
    requires forall t: Tid :: LinkNeeded(s, b, t) && t in s.next ==> t in s'.next && s'.next[t] == s.next[t]
    ensures PcOk(s', b)
  {
    match s.cores[b].pc {
      case PopStore(taken, rest) => assert LinkNeeded(s, b, taken);
      case PushStore(q, t, ret) => assert LinkNeeded(s, b, t);
      case _ =>
    }
  }

  /** A step of one core that leaves lists, links and locks alone and keeps what the core holds. */
  lemma LocalStep(s: System, s': System, c: nat)
    requires Inv(s) && OnlyCore(s, s', c)
    requires s' == s.(cores := s'.cores, running := s'.running, nullLink := s'.nullLink, nullList := s'.nullList)
    requires forall q :: 0 <= q < |s.cores| ==> (InSection(s'.cores[c].pc, c, q) <==> InSection(s.cores[c].pc, c, q))
    requires forall t: Tid :: Holds(s'.cores[c], t) <==> Holds(s.cores[c], t)
    requires forall t: Tid :: Runs(s'.cores[c], t) ==> Holds(s'.cores[c], t)
    requires forall t: Tid :: t in s'.running <==>
               if Holds(s.cores[c], t) then Runs(s'.cores[c], t) else t in s.running
    requires PcOk(s', c) && GuardOk(s', c)
    ensures Inv(s')
  {
    hide IsList, InSection, Holds, Runs;
    forall b | 0 <= b < |s'.cores|
      ensures PcOk(s', b) && GuardOk(s', b)
    {
      if b != c {
        OthersKeepPromise(s, s', c, b);
      }
    }
    hide PcOk, GuardOk;
  }

  lemma LockStep(s: System, s': System, c: nat, q: nat)
    requires Inv(s) && OnlyCore(s, s', c) && q < |s.cores|
    requires s' == s.(cores := s'.cores, locks := s'.locks, holders := s'.holders)
    requires (s.locks[q] == false && s' == Acquire(s, c, q).(cores := s'.cores) && InSection(s'.cores[c].pc, c, q))
             || (InSection(s.cores[c].pc, c, q) && s' == Release(s, q).(cores := s'.cores)
                 && !InSection(s'.cores[c].pc, c, q))
    requires forall p :: 0 <= p < |s.cores| && p != q ==>
               !InSection(s'.cores[c].pc, c, p) && !InSection(s.cores[c].pc, c, p)
    requires forall t: Tid :: Holds(s'.cores[c], t) <==> Holds(s.cores[c], t)
    requires forall t: Tid :: Runs(s'.cores[c], t) <==> Runs(s.cores[c], t)
    requires PcOk(s', c) && GuardOk(s', c)
    ensures Inv(s')
  {
    hide IsList, InSection, Holds, Runs;
    forall b | 0 <= b < |s'.cores|
      ensures PcOk(s', b) && GuardOk(s', b)
    {
      if b != c {
        OthersKeepPromise(s, s', c, b);
      }
    }
    hide PcOk, GuardOk;
  }

  /** Writing the link of a thread in the core's hands, or just created, touches no list. */
  lemma LinkWriteKeepsLists(s: System, t: Tid, v: Option<Tid>)
    requires Shaped(s) && ListsOk(s) && forall q :: 0 <= q < |s.queues| ==> t !in s.queues[q]
    ensures forall q :: 0 <= q < |s.queues| ==> IsList(s.next[t := v], s.heads[q], s.queues[q])
  {
    forall q | 0 <= q < |s.queues|
      ensures IsList(s.next[t := v], s.heads[q], s.queues[q])
    {
      ListsIgnore(s, t, v, q);
    }
  }

  /** Mutual exclusion. */
  lemma OneInSection(s: System, b: nat, c: nat, q: nat)
    requires Shaped(s) && LocksOk(s) && b < |s.cores| && c < |s.cores| && q < |s.cores|
    requires InSection(s.cores[b].pc, b, q) && InSection(s.cores[c].pc, c, q)
    ensures b == c
  {
    hide InSection;
    assert s.holders[q] == Some(b);
  }

  /** A step that changes at most list q, whose lock its core has, and the link of thread t, which no
      other core and no list has. */
  lemma OthersKeepPromises(s: System, s': System, c: nat, q: nat, t: Tid)
    requires Inv(s) && OnlyCore(s, s', c) && q < |s.cores|
    requires forall p :: 0 <= p < |s.cores| && p != q ==>
               s'.heads[p] == s.heads[p] && s'.queues[p] == s.queues[p] && s'.exposed[p] == s.exposed[p]
    requires InSection(s.cores[c].pc, c, q)
             || (s'.heads[q] == s.heads[q] && s'.queues[q] == s.queues[q] && s'.exposed[q] == s.exposed[q])
    requires q != c && !s.cores[q].pc.PopHead? && !s.cores[q].pc.PopNext? ==> GuardOk(s', q)
    requires forall x: Tid :: x != t && x in s.next ==> x in s'.next && s'.next[x] == s.next[x]
    requires s'.next == s.next || (forall p :: 0 <= p < |s.queues| ==> t !in s.queues[p])
    requires s'.next == s.next || (forall b :: 0 <= b < |s.cores| && b != c ==> !Holds(s.cores[b], t))
    ensures forall b :: 0 <= b < |s.cores| && b != c ==> PcOk(s', b) && GuardOk(s', b)
  {
    hide InSection, Holds, IsList, PcOk, GuardOk;
    forall b | 0 <= b < |s.cores| && b != c
      ensures PcOk(s', b) && GuardOk(s', b)
    {
      if InSection(s.cores[b].pc, b, q) && InSection(s.cores[c].pc, c, q) {
        OneInSection(s, b, c, q);
      }
      OthersKeepPromise(s, s', c, b);
      OthersKeepGuard(s, s', c, b, q);
    }
  }

  lemma OthersKeepGuard(s: System, s': System, c: nat, b: nat, q: nat)
    requires Inv(s) && OnlyCore(s, s', c) && q < |s.cores| && b < |s.cores| && b != c
    requires b != q || !InSection(s.cores[c].pc, c, q) ==>
               s'.queues[b] == s.queues[b] && s'.exposed[b] == s.exposed[b]
    requires b == q && !s.cores[q].pc.PopHead? && !s.cores[q].pc.PopNext? ==> GuardOk(s', q)
    requires !(InSection(s.cores[b].pc, b, q) && InSection(s.cores[c].pc, c, q))
    ensures GuardOk(s', b)
  {
    hide ListsOk, LocksOk, PlacesOk, StatusOk, PcOk;
    assert GuardOk(s, b);
  }

  // create_thread

  lemma CreatedCore(s: System, c: nat, a: Action, ret: Return)
    requires Inv(s) && c < |s.cores| && a.Push? && a.queue < |s.cores| && a.thread !in s.place
    requires (s.cores[c].pc == Scheduler && ret == ToScheduler) || (s.cores[c].pc == Task && ret == ToTask)
    ensures var s', t := StartPush(s, c, a, ret), a.thread;
            && OnlyCore(s, s', c) && PcOk(s', c) && GuardOk(s', c)
            && (forall x: Tid :: Holds(s'.cores[c], x) <==> x == t || Holds(s.cores[c], x))
            && (forall x: Tid :: Runs(s'.cores[c], x) <==> Runs(s.cores[c], x))
            && !Runs(s.cores[c], t)
            && (forall q :: !InSection(s'.cores[c].pc, c, q) && !InSection(s.cores[c].pc, c, q))
  {
    hide ListsOk, LocksOk, StatusOk;
    assert PcOk(s, c) && GuardOk(s, c);
    assert !Holds(s.cores[c], a.thread);
  }

  /** create_thread: the new thread is in its creator's hands. */
  lemma CreateStep(s: System, c: nat, a: Action, ret: Return)
    requires Inv(s) && c < |s.cores| && a.Push? && a.queue < |s.cores| && a.thread !in s.place
    requires (s.cores[c].pc == Scheduler && ret == ToScheduler) || (s.cores[c].pc == Task && ret == ToTask)
    ensures Inv(StartPush(s, c, a, ret))
  {
    hide IsList, InSection, Holds, Runs, PcOk;
    var s', t := StartPush(s, c, a, ret), a.thread;
    CreatedCore(s, c, a, ret);
    LinkWriteKeepsLists(s, t, a.garbage);
    OthersKeepPromises(s, s', c, c, t);
  }

  // thread->next = ready_list

  lemma LinkedCore(s: System, c: nat, a: Action)
    requires Inv(s) && c < |s.cores| && s.cores[c].pc.PushLink?
    ensures var s', t := Step(s, c, a), s.cores[c].pc.thread;
            && OnlyCore(s, s', c) && PcOk(s', c) && GuardOk(s', c) && Holds(s.cores[c], t)
            && (forall x: Tid :: Holds(s'.cores[c], x) <==> Holds(s.cores[c], x))
            && (forall x: Tid :: Runs(s'.cores[c], x) <==> Runs(s.cores[c], x))
            && (forall q :: InSection(s'.cores[c].pc, c, q) <==> InSection(s.cores[c].pc, c, q))
            && s' == s.(cores := s'.cores, next := s.next[t := s.cores[c].pc.head])
  {
    hide ListsOk, LocksOk, StatusOk, PlacesOk;
    assert PcOk(s, c) && GuardOk(s, c);
  }

  lemma LinkStep(s: System, c: nat, a: Action)
    requires Inv(s) && c < |s.cores| && s.cores[c].pc.PushLink?
    ensures Inv(Step(s, c, a))
  {
    hide IsList, InSection, Holds, Runs, PcOk, Step;
    var s', t := Step(s, c, a), s.cores[c].pc.thread;
    LinkedCore(s, c, a);
    HeldElsewhereNot(s, c, t);
    LinkWriteKeepsLists(s, t, s.cores[c].pc.head);
    OthersKeepPromises(s, s', c, c, t);
  }

  // ready_list = thread

  lemma StoredCore(s: System, c: nat, a: Action)
    requires Inv(s) && c < |s.cores| && s.cores[c].pc.PushStore?
    ensures var s', t, q := Step(s, c, a), s.cores[c].pc.thread, s.cores[c].pc.queue;
            && OnlyCore(s, s', c) && PcOk(s', c) && GuardOk(s', c) && Holds(s.cores[c], t) && q < |s.cores|
            && (forall x: Tid :: Holds(s'.cores[c], x) <==> x != t && Holds(s.cores[c], x))
            && (forall x: Tid :: Runs(s'.cores[c], x) <==> Runs(s.cores[c], x))
            && !Runs(s.cores[c], t)
            && (forall p :: InSection(s'.cores[c].pc, c, p) <==> InSection(s.cores[c].pc, c, p))
            && InSection(s.cores[c].pc, c, q)
            && s' == s.(cores := s'.cores, heads := s.heads[q := Some(t)], queues := s.queues[q := [t] + s.queues[q]],
                        place := s.place[t := InQueue(q)], exposed := s.exposed[q := false])
            && t in s.next && s.next[t] == s.heads[q]
  {
    hide ListsOk, LocksOk, StatusOk, PlacesOk;
    assert PcOk(s, c) && GuardOk(s, c);
  }

  lemma StoredLists(s: System, s': System, t: Tid, q: nat)
    requires Shaped(s) && ListsOk(s) && q < |s.cores| && t !in s.queues[q]
    requires t in s.next && s.next[t] == s.heads[q]
    requires s' == s.(cores := s'.cores, heads := s.heads[q := Some(t)], queues := s.queues[q := [t] + s.queues[q]],
                      place := s'.place, exposed := s'.exposed)
    requires |s'.cores| == |s.cores| && |s'.exposed| == |s.exposed|
    ensures ListsOk(s') && forall x: Tid :: x in s'.queues[q] <==> x == t || x in s.queues[q]
  {
    assert ([t] + s.queues[q])[1..] == s.queues[q];
  }

  lemma StoredPlaces(s: System, s': System, c: nat, q: nat, t: Tid)
    requires Shaped(s) && PlacesOk(s) && OnlyCore(s, s', c) && q < |s.cores| && Holds(s.cores[c], t)
    requires s'.place == s.place[t := InQueue(q)]
    requires forall p :: 0 <= p < |s.cores| && p != q ==> s'.queues[p] == s.queues[p]
    requires forall x: Tid :: x in s'.queues[q] <==> x == t || x in s.queues[q]
    requires forall x: Tid :: Holds(s'.cores[c], x) <==> x != t && Holds(s.cores[c], x)
    ensures PlacesOk(s') && t in s.place && s.place[t] == OnCore(c)
  {
    hide Holds;
    forall x: Tid, p | 0 <= p < |s'.queues|
      ensures x in s'.queues[p] <==> x in s'.place && s'.place[x] == InQueue(p)
    {
      assert x in s.queues[p] <==> x in s.place && s.place[x] == InQueue(p);
    }
    forall x: Tid, b | 0 <= b < |s'.cores|
      ensures Holds(s'.cores[b], x) <==> x in s'.place && s'.place[x] == OnCore(b)
    {
      assert Holds(s.cores[b], x) <==> x in s.place && s.place[x] == OnCore(b);
    }
  }

  /** ready_list = thread: the thread becomes the first of the list. */
  lemma StoreStep(s: System, c: nat, a: Action)
    requires Inv(s) && c < |s.cores| && s.cores[c].pc.PushStore?
    ensures Inv(Step(s, c, a))
  {
    hide IsList, InSection, Holds, Runs, PcOk, Step, ListsOk;
    assert GuardOk(s, c);
    var s', t, q := Step(s, c, a), s.cores[c].pc.thread, s.cores[c].pc.queue;
    StoredCore(s, c, a);
    HeldElsewhereNot(s, c, t);
    StoredLists(s, s', t, q);
    if q != c && !s.cores[q].pc.PopHead? && !s.cores[q].pc.PopNext? {
      assert GuardOk(s, q);
    }
    OthersKeepPromises(s, s', c, q, t);
    StoredPlaces(s, s', c, q, t);
    hide PlacesOk;
  }

  // ready_list = next->next

  lemma UnlinkedCore(s: System, c: nat, a: Action)
    requires Inv(s) && c < |s.cores| && s.cores[c].pc.PopStore?
    ensures var s', t, xs := Step(s, c, a), s.cores[c].pc.taken, s.queues[c];
            && OnlyCore(s, s', c) && PcOk(s', c) && GuardOk(s', c) && xs != [] && t == xs[0]
            && (forall x: Tid :: Holds(s'.cores[c], x) <==> x == t)
            && (forall x: Tid :: !Holds(s.cores[c], x) && !Runs(s.cores[c], x) && !Runs(s'.cores[c], x))
            && (forall p :: InSection(s'.cores[c].pc, c, p) <==> InSection(s.cores[c].pc, c, p))
            && InSection(s.cores[c].pc, c, c)
            && t in s.next
            && s' == s.(cores := s'.cores, heads := s.heads[c := s.next[t]], queues := s.queues[c := xs[1..]],
                        place := s.place[t := OnCore(c)])
  {
    hide ListsOk, LocksOk, StatusOk, PlacesOk;
    assert PcOk(s, c) && GuardOk(s, c);
  }

  lemma UnlinkedLists(s: System, s': System, c: nat)
    requires Shaped(s) && ListsOk(s) && c < |s.cores| == |s'.cores| && s.queues[c] != [] && s.queues[c][0] in s.next
    requires s' == s.(cores := s'.cores, heads := s.heads[c := s.next[s.queues[c][0]]],
                      queues := s.queues[c := s.queues[c][1..]], place := s'.place)
    ensures ListsOk(s')
    ensures forall x: Tid :: x in s'.queues[c] <==> x != s.queues[c][0] && x in s.queues[c]
  {
    var xs := s.queues[c];
    assert IsList(s.next, s.heads[c], xs);
    assert forall i :: 0 <= i < |xs[1..]| ==> xs[1..][i] == xs[i + 1];
  }

  lemma UnlinkedPlaces(s: System, s': System, c: nat, t: Tid)
    requires Shaped(s) && PlacesOk(s) && OnlyCore(s, s', c) && t in s.queues[c]
    requires s'.place == s.place[t := OnCore(c)]
    requires forall p :: 0 <= p < |s.cores| && p != c ==> s'.queues[p] == s.queues[p]
    requires forall x: Tid :: x in s'.queues[c] <==> x != t && x in s.queues[c]
    requires forall x: Tid :: Holds(s'.cores[c], x) <==> x == t
    requires forall x: Tid :: !Holds(s.cores[c], x)
    ensures PlacesOk(s') && s.place[t] == InQueue(c)
  {
    hide Holds;
    forall x: Tid, q | 0 <= q < |s'.queues|
      ensures x in s'.queues[q] <==> x in s'.place && s'.place[x] == InQueue(q)
    {
      assert x in s.queues[q] <==> x in s.place && s.place[x] == InQueue(q);
    }
    forall x: Tid, b | 0 <= b < |s'.cores|
      ensures Holds(s'.cores[b], x) <==> x in s'.place && s'.place[x] == OnCore(b)
    {
      assert Holds(s.cores[b], x) <==> x in s.place && s.place[x] == OnCore(b);
    }
  }

  /** ready_list = next->next: the first thread of the list goes into its owner's hands. */
  lemma UnlinkStep(s: System, c: nat, a: Action)
    requires Inv(s) && c < |s.cores| && s.cores[c].pc.PopStore?
    ensures Inv(Step(s, c, a))
  {
    hide IsList, InSection, Holds, Runs, PcOk, Step, ListsOk;
    var s', t := Step(s, c, a), s.cores[c].pc.taken;
    UnlinkedCore(s, c, a);
    UnlinkedLists(s, s', c);
    OthersKeepPromises(s, s', c, c, t);
    UnlinkedPlaces(s, s', c, t);
  }

  // ready_list = NULL, by a push without a thread

  lemma DroppedCore(s: System, c: nat, a: Action)
    requires Inv(s) && c < |s.cores| && s.cores[c].pc.NullStore?
    ensures var s', q := Step(s, c, a), s.cores[c].pc.queue;
            && q < |s.cores| && OnlyCore(s, s', c) && PcOk(s', c) && GuardOk(s', c)
            && (forall x: Tid :: Holds(s'.cores[c], x) <==> Holds(s.cores[c], x))
            && (forall x: Tid :: Runs(s'.cores[c], x) <==> Runs(s.cores[c], x))
            && (forall p :: InSection(s'.cores[c].pc, c, p) <==> InSection(s.cores[c].pc, c, p))
            && InSection(s.cores[c].pc, c, q)
            && s' == DropList(s, q).(cores := s'.cores)
  {
    hide ListsOk, LocksOk, StatusOk, PlacesOk;
    assert PcOk(s, c) && GuardOk(s, c);
  }

  lemma DroppedPlaces(s: System, s': System, c: nat, q: nat)
    requires Shaped(s) && PlacesOk(s) && OnlyCore(s, s', c) && q < |s.cores|
    requires s'.place == Lose(s.place, s.queues[q]) && s'.queues == s.queues[q := []]
    requires forall x: Tid :: Holds(s'.cores[c], x) <==> Holds(s.cores[c], x)
    ensures PlacesOk(s')
    ensures forall x: Tid :: x in s.place && s.place[x].OnCore? ==> s'.place[x] == s.place[x]
    ensures forall x: Tid :: x in s'.place && s'.place[x].OnCore? ==> s.place[x] == s'.place[x]
  {
    hide Holds;
    forall x: Tid, p | 0 <= p < |s'.queues|
      ensures x in s'.queues[p] <==> x in s'.place && s'.place[x] == InQueue(p)
    {
      assert x in s.queues[p] <==> x in s.place && s.place[x] == InQueue(p);
      assert x in s.queues[q] <==> x in s.place && s.place[x] == InQueue(q);
    }
    forall x: Tid, b | 0 <= b < |s'.cores|
      ensures Holds(s'.cores[b], x) <==> x in s'.place && s'.place[x] == OnCore(b)
    {
      assert Holds(s.cores[b], x) <==> x in s.place && s.place[x] == OnCore(b);
      assert x in s.queues[q] <==> x in s.place && s.place[x] == InQueue(q);
    }
    forall x: Tid | x in s.queues[q]
      ensures x in s.place && s.place[x] == InQueue(q)
    {
    }
  }

  lemma DroppedLists(s: System, s': System, q: nat)
    requires Shaped(s) && Shaped(s') && ListsOk(s) && q < |s.cores| == |s'.cores|
    requires s'.next == s.next && s'.heads == s.heads[q := None] && s'.queues == s.queues[q := []]
    ensures ListsOk(s')
  {
  }

  lemma DroppedStatus(s: System, s': System, c: nat)
    requires Shaped(s) && StatusOk(s) && OnlyCore(s, s', c) && s'.running == s.running
    requires s'.place.Keys == s.place.Keys
    requires forall x: Tid :: x in s.place && s.place[x].OnCore? ==> s'.place[x] == s.place[x]
    requires forall x: Tid :: x in s'.place && s'.place[x].OnCore? ==> s.place[x] == s'.place[x]
    requires forall x: Tid :: Runs(s'.cores[c], x) <==> Runs(s.cores[c], x)
    ensures StatusOk(s')
  {
    hide Runs;
  }

  /** ready_list = NULL by a push: the threads of the list are lost, and an owner that has tested it is
      exposed. */
  lemma DropStep(s: System, c: nat, a: Action)
    requires Inv(s) && c < |s.cores| && s.cores[c].pc.NullStore?
    ensures Inv(Step(s, c, a))
  {
    hide IsList, InSection, Holds, Runs, PcOk, Step, ListsOk;
    var s', q := Step(s, c, a), s.cores[c].pc.queue;
    DroppedCore(s, c, a);
    DroppedLists(s, s', q);
    if q != c && !s.cores[q].pc.PopHead? && !s.cores[q].pc.PopNext? {
      assert GuardOk(s, q);
    }
    OthersKeepPromises(s, s', c, q, 0);
    DroppedPlaces(s, s', c, q);
    DroppedStatus(s, s', c);
    hide PlacesOk, StatusOk, GuardOk;
  }

  // ----- steps that leave the lists alone

  lemma NullStart(s: System, c: nat, a: Action)
    requires Inv(s) && c < |s.cores| && (s.cores[c].pc == Scheduler || s.cores[c].pc == Task) && a.PushFails?
    ensures Inv(Step(s, c, a))
  {
    assert PcOk(s, c) && GuardOk(s, c);
    if a.queue < |s.cores| {
      LocalStep(s, Step(s, c, a), c);
    }
  }

  lemma NullLockStep(s: System, c: nat, a: Action)
    requires Inv(s) && c < |s.cores| && s.cores[c].pc.NullLock?
    ensures Inv(Step(s, c, a))
  {
    assert PcOk(s, c) && GuardOk(s, c);
    var q := s.cores[c].pc.queue;
    if !s.locks[q] {
      LockStep(s, Step(s, c, a), c, q);
    }
  }

  lemma NullLinkStep(s: System, c: nat, a: Action)
    requires Inv(s) && c < |s.cores| && (s.cores[c].pc.NullHead? || s.cores[c].pc.NullLink?)
    ensures Inv(Step(s, c, a))
  {
    assert PcOk(s, c) && GuardOk(s, c);
    LocalStep(s, Step(s, c, a), c);
  }

  lemma SchedulerStep(s: System, c: nat, a: Action)
    requires Inv(s) && c < |s.cores| && s.cores[c].pc == Scheduler
    ensures Inv(Step(s, c, a))
  {
    if a.Push? {
      if a.queue < |s.cores| && a.thread !in s.place {
        CreateStep(s, c, a, ToScheduler);
      }
    } else if a.PushFails? {
      NullStart(s, c, a);
    } else {
      assert PcOk(s, c) && GuardOk(s, c) && IsList(s.next, s.heads[c], s.queues[c]);
      if a.Shutdown? || s.heads[c].Some? {
        LocalStep(s, Step(s, c, a), c);
      }
    }
  }

  lemma TaskStep(s: System, c: nat, a: Action)
    requires Inv(s) && c < |s.cores| && s.cores[c].pc == Task
    ensures Inv(Step(s, c, a))
  {
    assert PcOk(s, c) && GuardOk(s, c);
    if a.Push? {
      if a.queue < |s.cores| && a.thread !in s.place {
        CreateStep(s, c, a, ToTask);
      }
    } else if a.PushFails? {
      NullStart(s, c, a);
    } else if a.Yield? {
      LocalStep(s, Step(s, c, a), c);
    }
  }

  lemma PopStep(s: System, c: nat, a: Action)
    requires Inv(s) && c < |s.cores| && s.cores[c].pc != PopNext(None)
    requires s.cores[c].pc.PopLock? || s.cores[c].pc.PopHead? || s.cores[c].pc.PopNext? || s.cores[c].pc.PopUnlock?
    ensures Inv(Step(s, c, a))
  {
    assert PcOk(s, c) && GuardOk(s, c) && IsList(s.next, s.heads[c], s.queues[c]);
    if s.cores[c].pc.PopHead? || s.cores[c].pc.PopNext? {
      LocalStep(s, Step(s, c, a), c);
    } else if s.cores[c].pc.PopUnlock? || !s.locks[c] {
      LockStep(s, Step(s, c, a), c, c);
    }
  }

  lemma SwitchStep(s: System, c: nat, a: Action)
    requires Inv(s) && c < |s.cores| && (s.cores[c].pc.PopSwitch? || s.cores[c].pc.YieldSwitch?)
    ensures Inv(Step(s, c, a))
  {
    assert PcOk(s, c) && GuardOk(s, c);
    LocalStep(s, Step(s, c, a), c);
  }

  lemma PushStep(s: System, c: nat, a: Action)
    requires Inv(s) && c < |s.cores|
    requires s.cores[c].pc.PushLock? || s.cores[c].pc.PushHead? || s.cores[c].pc.PushUnlock?
    ensures Inv(Step(s, c, a))
  {
    assert PcOk(s, c) && GuardOk(s, c);
    var q := s.cores[c].pc.queue;
    if s.cores[c].pc.PushHead? {
      PushHeadStep(s, c, a);
    } else if s.cores[c].pc.PushUnlock? || !s.locks[q] {
      LockStep(s, Step(s, c, a), c, q);
    }
  }

  lemma PushHeadStep(s: System, c: nat, a: Action)
    requires Inv(s) && c < |s.cores| && s.cores[c].pc.PushHead?
    ensures Inv(Step(s, c, a))
  {
    assert PcOk(s, c) && GuardOk(s, c);
    LocalStep(s, Step(s, c, a), c);
  }

  /** Every step of every core keeps the invariant, up to a core that has read NULL for its next thread. */
  lemma StepKeepsInv(s: System, c: nat, a: Action)
    requires Inv(s) && c < |s.cores| && s.cores[c].pc != PopNext(None)
    ensures Inv(Step(s, c, a)) && |Step(s, c, a).cores| == |s.cores|
  {
    hide LocksOk, ListsOk, PlacesOk, StatusOk, GuardOk;
    assert PcOk(s, c);
    match s.cores[c].pc {
      case Scheduler => SchedulerStep(s, c, a);
      case PopLock => PopStep(s, c, a);
      case PopHead => PopStep(s, c, a);
      case PopNext(_) => PopStep(s, c, a);
      case PopStore(_, _) => UnlinkStep(s, c, a);
      case PopUnlock(_) => PopStep(s, c, a);
      case PopSwitch(_) => SwitchStep(s, c, a);
      case Task => TaskStep(s, c, a);
      case PushLock(_, _, _) => PushStep(s, c, a);
      case PushHead(_, _, _) => PushStep(s, c, a);
      case PushLink(_, _, _, _) => LinkStep(s, c, a);
      case PushStore(_, _, _) => StoreStep(s, c, a);
      case PushUnlock(_, _) => PushStep(s, c, a);
      case NullLock(_, _) => NullLockStep(s, c, a);
      case NullHead(_, _) => NullLinkStep(s, c, a);
      case NullLink(_, _, _) => NullLinkStep(s, c, a);
      case NullStore(_, _) => DropStep(s, c, a);
      case YieldSwitch => SwitchStep(s, c, a);
      case Halted =>
      case PopNullStore(_) =>
      case PopNullUnlock =>
      case Wild =>
    }
  }
}
