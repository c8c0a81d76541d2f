/** thread_context_switch of switch_thread_context.asm and the stack create_thread prepares for it. */
module ContextSwitch {

  const WORD_SIZE: nat := 8
  const STACK_SIZE: nat := 16384
  /** Six registers and the return address. */
  const FRAME_SIZE: nat := 56

  /** The registers a function keeps for its caller. */
  datatype Saved = Saved(rbp: nat, rbx: nat, r12: nat, r13: nat, r14: nat, r15: nat)

  const ZEROED := Saved(0, 0, 0, 0, 0, 0)

  /** Memory by address of a 64-bit word; a word never written reads as zero. */
  type WordMemory = map<nat, nat>

  function Load(m: WordMemory, a: nat): nat {
    if a in m then m[a] else 0
  }

  /** What a thread is resumed with. */
  datatype Context = Context(regs: Saved, rsp: nat, rip: nat)

  datatype Machine = Machine(regs: Saved, rsp: nat, rip: nat, memory: WordMemory) {
    function Now(): Context { Context(regs, rsp, rip) }
  }

  /** The seven words at rsp from which a switch resumes a context. */
  predicate FrameHolds(m: WordMemory, rsp: nat, k: Context) {
    && rsp + FRAME_SIZE == k.rsp
    && Load(m, rsp) == k.regs.r15 && Load(m, rsp + 8) == k.regs.r14 && Load(m, rsp + 16) == k.regs.r13
    && Load(m, rsp + 24) == k.regs.r12 && Load(m, rsp + 32) == k.regs.rbx && Load(m, rsp + 40) == k.regs.rbp
    && Load(m, rsp + 48) == k.rip
  }

  /** The memory after `call thread_context_switch` and the six pushes: rip is where the call returns. */
  function PushFrame(m: WordMemory, k: Context): WordMemory
    requires k.rsp >= FRAME_SIZE
  {
    m[k.rsp - 8 := k.rip][k.rsp - 16 := k.regs.rbp][k.rsp - 24 := k.regs.rbx][k.rsp - 32 := k.regs.r12]
     [k.rsp - 40 := k.regs.r13][k.rsp - 48 := k.regs.r14][k.rsp - 56 := k.regs.r15]
  }

  /** The context six pops and a ret read from rsp. */
  function PopFrame(m: WordMemory, rsp: nat): Context {
    Context(Saved(Load(m, rsp + 40), Load(m, rsp + 32), Load(m, rsp + 24), Load(m, rsp + 16),
                  Load(m, rsp + 8), Load(m, rsp)),
            rsp + FRAME_SIZE, Load(m, rsp + 48))
  }

  /** A call of thread_context_switch on two thread_state records, whose first word is the rsp field. */
  function Switch(s: Machine, from: nat, to: nat): Machine
    requires s.rsp >= FRAME_SIZE
  {
    var pushed := PushFrame(s.memory, s.Now())[from := s.rsp - FRAME_SIZE];
    var k := PopFrame(pushed, Load(pushed, to));
    Machine(k.regs, k.rsp, k.rip, pushed)
  }

  /** The stack and rsp field create_thread sets up, with `bottom` the lowest address of the stack. */
  function Prepare(m: WordMemory, thread: nat, bottom: nat, entry: nat): WordMemory {
    PushFrame(m, Context(ZEROED, bottom + STACK_SIZE, entry))[thread := bottom + STACK_SIZE - FRAME_SIZE]
  }

  /** A processor that runs the instructions one by one. */
  class Processor {
    var rbp: nat
    var rbx: nat
    var r12: nat
    var r13: nat
    var r14: nat
    var r15: nat
    var rsp: nat
    var rip: nat
    var memory: WordMemory

    function State(): Machine
      reads this
    {
      Machine(Saved(rbp, rbx, r12, r13, r14, r15), rsp, rip, memory)
    }

    constructor (s: Machine)
      ensures State() == s
    {
      rbp, rbx, r12, r13, r14, r15 := s.regs.rbp, s.regs.rbx, s.regs.r12, s.regs.r13, s.regs.r14, s.regs.r15;
      rsp, rip, memory := s.rsp, s.rip, s.memory;
    }

    method Push(w: nat)
      requires rsp >= WORD_SIZE
      modifies `rsp, `memory
      ensures rsp == old(rsp) - WORD_SIZE && memory == old(memory)[rsp := w]
    {
      rsp := rsp - WORD_SIZE;
      memory := memory[rsp := w];
    }

    method Pop() returns (w: nat)
      modifies `rsp
      ensures w == Load(memory, old(rsp)) && rsp == old(rsp) + WORD_SIZE
    {
      w := Load(memory, rsp);
      rsp := rsp + WORD_SIZE;
    }

    /** The call and the six pushes. */
    method PushAll()
      requires rsp >= FRAME_SIZE
      modifies `rsp, `memory
      ensures rsp == old(rsp) - FRAME_SIZE && memory == PushFrame(old(memory), old(State()).Now())
    {
      Push(rip);                  // call
      Push(rbp);
      Push(rbx);
      Push(r12);
      Push(r13);
      Push(r14);
      Push(r15);
    }

    /** The six pops and the ret. */
    method PopAll()
      modifies this
      ensures memory == old(memory) && State().Now() == PopFrame(memory, old(rsp))
    {
      hide Load;
      r15 := Pop();
      r14 := Pop();
      r13 := Pop();
      r12 := Pop();
      rbx := Pop();
      rbp := Pop();
      rip := Pop();               // ret
    }

    /** thread_context_switch, entered by a call that returns to the present rip. */
    method ThreadContextSwitch(rdi: nat, rsi: nat)
      requires rsp >= FRAME_SIZE
      modifies this
      ensures State() == Switch(old(State()), rdi, rsi)
    {
      hide Load, PushFrame, PopFrame;
      PushAll();
      memory := memory[rdi := rsp];
      rsp := Load(memory, rsi);
      PopAll();
    }

    /** create_thread's stores: entry, then zeroes for rbp, rbx and r12 to r15, downwards. */
    method PrepareStack(thread: nat, bottom: nat, entry: nat)
      modifies `memory
      ensures memory == Prepare(old(memory), thread, bottom, entry)
    {
      var stack := bottom + STACK_SIZE;
      stack := stack - WORD_SIZE;
      memory := memory[stack := entry];   // RIP
      stack := stack - WORD_SIZE;
      memory := memory[stack := 0];       // RBP
      stack := stack - WORD_SIZE;
      memory := memory[stack := 0];       // RBX
      stack := stack - WORD_SIZE;
      memory := memory[stack := 0];       // R12
      stack := stack - WORD_SIZE;
      memory := memory[stack := 0];       // R13
      stack := stack - WORD_SIZE;
      memory := memory[stack := 0];       // R14
      stack := stack - WORD_SIZE;
      memory := memory[stack := 0];       // R15
      memory := memory[thread := stack];
    }
  }

  // ----- threads taking turns on a core

  /** The running thread, every thread's stack by its lowest address, and, as a record, the contexts in
      which the other threads are to be resumed. */
  datatype World = World(cpu: Machine, cur: nat, stacks: map<nat, nat>, saved: map<nat, Context>)

  datatype Event =
    | Compute(after: Machine)                              // the running thread's own code
    | SwitchTo(thread: nat)
    | Create(thread: nat, bottom: nat, entry: nat)         // create_thread

  predicate InStack(w: World, t: nat, a: nat)
    requires t in w.stacks
  {
    w.stacks[t] <= a < w.stacks[t] + STACK_SIZE
  }

  function Do(w: World, e: Event): World {
    match e
    case Compute(after) => w.(cpu := after)
    case SwitchTo(t) =>
      if w.cpu.rsp < FRAME_SIZE then w
      else w.(cpu := Switch(w.cpu, w.cur, t), cur := t, saved := w.saved[w.cur := w.cpu.Now()] - {t})
    case Create(t, bottom, entry) =>
      w.(cpu := w.cpu.(memory := Prepare(w.cpu.memory, t, bottom, entry)),
         stacks := w.stacks[t := bottom],
         saved := w.saved[t := Context(ZEROED, bottom + STACK_SIZE, entry)])
  }

  /** What the threads may do: compute without writing another thread's stack or any rsp field, switch to
      a suspended thread with room for the frame, give a new thread a record and a stack of its own. */
  ghost predicate EventOk(w: World, e: Event)
    requires w.cur in w.stacks
  {
    match e
    case Compute(after) =>
      forall a: nat :: (a in w.stacks || exists t :: t in w.stacks && t != w.cur && InStack(w, t, a)) ==>
                         Load(after.memory, a) == Load(w.cpu.memory, a)
    case SwitchTo(t) =>
      t in w.saved && w.stacks[w.cur] + FRAME_SIZE <= w.cpu.rsp <= w.stacks[w.cur] + STACK_SIZE
    case Create(t, bottom, entry) => RoomFor(w, t, bottom)
  }

  ghost predicate RoomFor(w: World, t: nat, bottom: nat) {
    && t !in w.stacks && !(bottom <= t < bottom + STACK_SIZE)
    && (forall u :: u in w.stacks ==>
                      && !InStack(w, u, t) && !(bottom <= u < bottom + STACK_SIZE)
                      && (bottom + STACK_SIZE <= w.stacks[u] || w.stacks[u] + STACK_SIZE <= bottom))
  }

  ghost predicate StacksApart(w: World) {
    && (forall t, u :: t in w.stacks && u in w.stacks ==> !InStack(w, u, t))
    && (forall t, u, a: nat :: t in w.stacks && u in w.stacks && InStack(w, t, a) && InStack(w, u, a) ==> t == u)
  }

  /** The frame a suspended thread left is on its stack, at the address its record holds. */
  ghost predicate Resumable(w: World, t: nat)
    requires t in w.saved && t in w.stacks
  {
    var p := Load(w.cpu.memory, t);
    w.stacks[t] <= p && w.saved[t].rsp <= w.stacks[t] + STACK_SIZE && FrameHolds(w.cpu.memory, p, w.saved[t])
  }

  ghost predicate WorldOk(w: World) {
    && w.cur in w.stacks && w.saved.Keys == w.stacks.Keys - {w.cur}
    && StacksApart(w)
    && forall t :: t in w.saved ==> Resumable(w, t)
  }

  ghost predicate EventsOk(w: World, events: seq<Event>)
    decreases |events|
  {
    events == [] || (w.cur in w.stacks && EventOk(w, events[0]) && EventsOk(Do(w, events[0]), events[1..]))
  }

  function DoAll(w: World, events: seq<Event>): World
    decreases |events|
  {
    if events == [] then w else DoAll(Do(w, events[0]), events[1..])
  }

  lemma PushedFrame(m: WordMemory, k: Context)
    requires k.rsp >= FRAME_SIZE
    ensures FrameHolds(PushFrame(m, k), k.rsp - FRAME_SIZE, k)
    ensures forall a: nat :: !(k.rsp - FRAME_SIZE <= a < k.rsp) ==> Load(PushFrame(m, k), a) == Load(m, a)
  {
  }

  lemma PoppedFrame(m: WordMemory, p: nat, k: Context)
    requires FrameHolds(m, p, k)
    ensures PopFrame(m, p) == k
  {
  }

  /** A switch word for word: the return address and rbp, rbx, r12, r13, r14, r15 go below the stack pointer, downwards,
      the old record gets the new stack pointer, no other word changes. */
  lemma SwitchStores(s: Machine, from: nat, to: nat)
    requires s.rsp >= 56 && !(s.rsp - 56 <= from < s.rsp)
    ensures var r := Switch(s, from, to);
            var m := r.memory;
            && Load(m, s.rsp - 8) == s.rip && Load(m, s.rsp - 16) == s.regs.rbp && Load(m, s.rsp - 24) == s.regs.rbx
            && Load(m, s.rsp - 32) == s.regs.r12 && Load(m, s.rsp - 40) == s.regs.r13
            && Load(m, s.rsp - 48) == s.regs.r14 && Load(m, s.rsp - 56) == s.regs.r15
            && Load(m, from) == s.rsp - 56
            && (forall a: nat :: a != from && !(s.rsp - 56 <= a < s.rsp) ==> Load(m, a) == Load(s.memory, a))
  {
    var pushed := PushFrame(s.memory, s.Now())[from := s.rsp - FRAME_SIZE];
    SwitchParts(s, from, to);
    PushAndRecord(s.memory, s.Now(), from);
    hide Load, PushFrame, PopFrame, Switch;
    PushedWords(pushed, s.Now());
  }

  /** Then the same seven words are read from where the new record says, and control goes on there. */
  lemma SwitchReads(s: Machine, from: nat, to: nat)
    requires s.rsp >= 56
    ensures var r := Switch(s, from, to);
            var m, p := r.memory, Load(r.memory, to);
            && r.regs.r15 == Load(m, p) && r.regs.r14 == Load(m, p + 8) && r.regs.r13 == Load(m, p + 16)
            && r.regs.r12 == Load(m, p + 24) && r.regs.rbx == Load(m, p + 32) && r.regs.rbp == Load(m, p + 40)
            && r.rip == Load(m, p + 48) && r.rsp == p + 56
  {
    hide Load, PushFrame, PopFrame, Switch;
    SwitchParts(s, from, to);
    PoppedWords(Switch(s, from, to).memory, Load(Switch(s, from, to).memory, to));
  }

  lemma SwitchParts(s: Machine, from: nat, to: nat)
    requires s.rsp >= FRAME_SIZE
    ensures var r, pushed := Switch(s, from, to), PushFrame(s.memory, s.Now())[from := s.rsp - FRAME_SIZE];
            r.memory == pushed && Context(r.regs, r.rsp, r.rip) == PopFrame(pushed, Load(pushed, to))
  {
    hide PushFrame, PopFrame, Load;
  }

  lemma PushedWords(m: WordMemory, k: Context)
    requires k.rsp >= 56 && FrameHolds(m, k.rsp - FRAME_SIZE, k)
    ensures Load(m, k.rsp - 8) == k.rip && Load(m, k.rsp - 16) == k.regs.rbp && Load(m, k.rsp - 24) == k.regs.rbx
            && Load(m, k.rsp - 32) == k.regs.r12 && Load(m, k.rsp - 40) == k.regs.r13
            && Load(m, k.rsp - 48) == k.regs.r14 && Load(m, k.rsp - 56) == k.regs.r15
  {
    hide Load;
  }

  lemma PoppedWords(m: WordMemory, p: nat)
    ensures var k := PopFrame(m, p);
            && k.regs.r15 == Load(m, p) && k.regs.r14 == Load(m, p + 8) && k.regs.r13 == Load(m, p + 16)
            && k.regs.r12 == Load(m, p + 24) && k.regs.rbx == Load(m, p + 32) && k.regs.rbp == Load(m, p + 40)
            && k.rip == Load(m, p + 48) && k.rsp == p + 56
  {
    hide Load;
  }

  /** The stack create_thread lays out, word for word: the entry at the top of its 16384 bytes, six zeroes below it,
      and their address in the record; no other word changes. */
  lemma NewStackStores(m: WordMemory, thread: nat, bottom: nat, entry: nat)
    requires !(bottom + 16328 <= thread < bottom + 16384)
    ensures var m' := Prepare(m, thread, bottom, entry);
            && Load(m', bottom + 16376) == entry
            && (forall k: nat :: k < 6 ==> Load(m', bottom + 16328 + k * 8) == 0)
            && Load(m', thread) == bottom + 16328
            && (forall a: nat :: a != thread && !(bottom + 16328 <= a < bottom + 16384) ==> Load(m', a) == Load(m, a))
  {
    PushAndRecord(m, Context(ZEROED, bottom + STACK_SIZE, entry), thread);
    hide Load, PushFrame;
    forall k: nat | k < 6
      ensures Load(Prepare(m, thread, bottom, entry), bottom + 16328 + k * 8) == 0
    {
      assert k == 0 || k == 1 || k == 2 || k == 3 || k == 4 || k == 5;
    }
  }

  /** A frame is read from the seven words of a stack, so a memory that agrees there resumes alike. */
  lemma FrameStays(w: World, w': World, t: nat)
    requires t in w.saved && t in w.stacks && Resumable(w, t)
    requires t in w'.saved && w'.saved[t] == w.saved[t] && t in w'.stacks && w'.stacks[t] == w.stacks[t]
    requires Load(w'.cpu.memory, t) == Load(w.cpu.memory, t)
    requires forall a: nat :: InStack(w, t, a) ==> Load(w'.cpu.memory, a) == Load(w.cpu.memory, a)
    ensures Resumable(w', t)
  {
    hide Load;
    var p := Load(w.cpu.memory, t);
    assert InStack(w, t, p) && InStack(w, t, p + 8) && InStack(w, t, p + 16) && InStack(w, t, p + 24)
        && InStack(w, t, p + 32) && InStack(w, t, p + 40) && InStack(w, t, p + 48);
  }

  /** Pushing a frame and storing its address in a record, seen from the rest of memory. */
  lemma PushAndRecord(m: WordMemory, k: Context, t: nat)
    requires k.rsp >= FRAME_SIZE && !(k.rsp - FRAME_SIZE <= t < k.rsp)
    ensures var m' := PushFrame(m, k)[t := k.rsp - FRAME_SIZE];
            && Load(m', t) == k.rsp - FRAME_SIZE && FrameHolds(m', k.rsp - FRAME_SIZE, k)
            && forall a: nat :: a != t && !(k.rsp - FRAME_SIZE <= a < k.rsp) ==> Load(m', a) == Load(m, a)
  {
    PushedFrame(m, k);
    var m1 := PushFrame(m, k);
    hide PushFrame;
    FrameMoved(m1, m1[t := k.rsp - FRAME_SIZE], k.rsp - FRAME_SIZE, k, t);
  }

  lemma FrameMoved(m: WordMemory, m': WordMemory, p: nat, k: Context, a: nat)
    requires FrameHolds(m, p, k) && m' == m[a := p] && !(p <= a < p + FRAME_SIZE)
    ensures FrameHolds(m', p, k) && Load(m', a) == p
  {
  }

  /** The other threads' stacks and records are out of reach of the running thread's frame. */
  lemma OthersOutOfReach(w: World, u: nat)
    requires w.cur in w.stacks && StacksApart(w) && u in w.stacks && u != w.cur
    ensures forall a: nat :: a == u || InStack(w, u, a) ==> a != w.cur && !InStack(w, w.cur, a)
    ensures !InStack(w, w.cur, w.cur)
  {
    assert !InStack(w, w.cur, u) && !InStack(w, u, w.cur);
  }

  /** A switch resumes the other thread exactly as it was left and leaves the old one resumable. */
  lemma SwitchExact(w: World, t: nat)
    requires WorldOk(w) && EventOk(w, SwitchTo(t))
    ensures var w' := Do(w, SwitchTo(t));
            WorldOk(w') && w'.cpu.Now() == w.saved[t] && w'.saved[w.cur] == w.cpu.Now()
  {
    hide Load, PushFrame, PopFrame, FrameHolds;
    var w', k := Do(w, SwitchTo(t)), w.cpu.Now();
    OthersOutOfReach(w, t);
    PushAndRecord(w.cpu.memory, k, w.cur);
    var pushed := PushFrame(w.cpu.memory, k)[w.cur := k.rsp - FRAME_SIZE];
    var inBetween := w.(cpu := w.cpu.(memory := pushed));
    FrameStays(w, inBetween, t);
    PoppedFrame(pushed, Load(pushed, t), w.saved[t]);
    assert w'.cpu.memory == pushed;
    forall u | u in w'.saved && u != w.cur
      ensures Resumable(w', u)
    {
      OthersOutOfReach(w, u);
      FrameStays(w, w', u);
    }
    SameStacks(w, w');
  }

  lemma SameStacks(w: World, w': World)
    requires StacksApart(w) && w'.stacks == w.stacks
    ensures StacksApart(w')
  {
    forall t, u, a: nat | t in w'.stacks && u in w'.stacks && InStack(w', t, a) && InStack(w', u, a)
      ensures t == u
    {
      assert InStack(w, t, a) && InStack(w, u, a);
    }
    forall t, u | t in w'.stacks && u in w'.stacks
      ensures !InStack(w', u, t)
    {
      assert !InStack(w, u, t);
    }
  }

  lemma NewStack(w: World, w': World, t: nat, bottom: nat)
    requires StacksApart(w) && RoomFor(w, t, bottom) && w'.stacks == w.stacks[t := bottom]
    ensures StacksApart(w')
  {
    forall x, u, a: nat | x in w'.stacks && u in w'.stacks && InStack(w', x, a) && InStack(w', u, a)
      ensures x == u
    {
      if x != t && u != t {
        assert InStack(w, x, a) && InStack(w, u, a);
      }
    }
    forall x, u | x in w'.stacks && u in w'.stacks
      ensures !InStack(w', u, x)
    {
      if x in w.stacks && u in w.stacks {
        assert !InStack(w, u, x);
      } else if u in w.stacks {
        assert !InStack(w, u, t);
      }
    }
  }

  /** create_thread: the new thread is resumable at its entry, on an empty stack, with zeroed registers. */
  lemma CreateExact(w: World, t: nat, bottom: nat, entry: nat)
    requires WorldOk(w) && EventOk(w, Create(t, bottom, entry))
    ensures var w' := Do(w, Create(t, bottom, entry));
            WorldOk(w') && w'.saved[t] == Context(ZEROED, bottom + STACK_SIZE, entry)
  {
    hide Load, PushFrame, FrameHolds;
    var w', k := Do(w, Create(t, bottom, entry)), Context(ZEROED, bottom + STACK_SIZE, entry);
    PushAndRecord(w.cpu.memory, k, t);
    forall u | u in w.saved
      ensures Resumable(w', u)
    {
      assert !InStack(w, u, t);
      FrameStays(w, w', u);
    }
    NewStack(w, w', t, bottom);
    hide StacksApart;
  }

  lemma ComputeExact(w: World, after: Machine)
    requires WorldOk(w) && EventOk(w, Compute(after))
    ensures WorldOk(Do(w, Compute(after)))
  {
    hide Load, FrameHolds;
    var w' := Do(w, Compute(after));
    forall u | u in w.saved
      ensures Resumable(w', u)
    {
      FrameStays(w, w', u);
    }
    SameStacks(w, w');
    hide StacksApart, Resumable;
  }

  lemma EventKeepsWorld(w: World, e: Event)
    requires WorldOk(w) && EventOk(w, e)
    ensures WorldOk(Do(w, e))
    ensures forall t :: t in w.saved && e != SwitchTo(t) ==> t in Do(w, e).saved && Do(w, e).saved[t] == w.saved[t]
  {
    match e {
      case Compute(after) => ComputeExact(w, after);
      case SwitchTo(t) => SwitchExact(w, t);
      case Create(t, bottom, entry) => CreateExact(w, t, bottom, entry);
    }
    hide StacksApart, Resumable, Switch, Prepare;
  }

  /** Until a thread is switched to again, its context stays as it was left. */
  lemma {:induction false} SuspendedStays(w: World, events: seq<Event>, t: nat)
    requires WorldOk(w) && EventsOk(w, events) && t in w.saved && SwitchTo(t) !in events
    ensures var w' := DoAll(w, events); WorldOk(w') && t in w'.saved && w'.saved[t] == w.saved[t]
    decreases |events|
  {
    if events != [] {
      EventKeepsWorld(w, events[0]);
      hide WorldOk, EventOk, Do;
      SuspendedStays(Do(w, events[0]), events[1..], t);
    }
  }

  /** A thread that switches away and is later switched back to, after whatever the other threads did,
      finds its registers, its stack pointer and its return address as they were at its call. */
  lemma SwitchRoundTrip(w: World, away: nat, events: seq<Event>)
    requires WorldOk(w) && EventOk(w, SwitchTo(away)) && away != w.cur
    requires EventsOk(Do(w, SwitchTo(away)), events) && SwitchTo(w.cur) !in events
    requires var w2 := DoAll(Do(w, SwitchTo(away)), events); w2.cur in w2.stacks && EventOk(w2, SwitchTo(w.cur))
    ensures var back := Do(DoAll(Do(w, SwitchTo(away)), events), SwitchTo(w.cur));
            back.cpu.Now() == w.cpu.Now() && back.cur == w.cur
  {
    SwitchExact(w, away);
    var w1 := Do(w, SwitchTo(away));
    assert w.cur in w1.saved;
    SuspendedStays(w1, events, w.cur);
    SwitchExact(DoAll(w1, events), w.cur);
    hide EventOk, Switch, DoAll;
  }

  /** A new thread, whenever it is first switched to, starts at its entry with an empty stack and
      zeroed registers. */
  lemma FirstResume(w: World, t: nat, bottom: nat, entry: nat, events: seq<Event>)
    requires WorldOk(w) && EventOk(w, Create(t, bottom, entry))
    requires EventsOk(Do(w, Create(t, bottom, entry)), events) && SwitchTo(t) !in events
    requires var w2 := DoAll(Do(w, Create(t, bottom, entry)), events); w2.cur in w2.stacks && EventOk(w2, SwitchTo(t))
    ensures var first := Do(DoAll(Do(w, Create(t, bottom, entry)), events), SwitchTo(t));
            && first.cpu.rip == entry && first.cpu.regs == ZEROED && first.cpu.rsp == bottom + STACK_SIZE
            && first.cur == t
  {
    CreateExact(w, t, bottom, entry);
    var w1 := Do(w, Create(t, bottom, entry));
    SuspendedStays(w1, events, t);
    SwitchExact(DoAll(w1, events), t);
    hide EventOk, Switch, DoAll;
  }
}
