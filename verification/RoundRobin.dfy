/** Runs of the round-robin scheduler of one CPU, as a state machine: what each timer tick and each new process
    does to the ring of processes and to the saved register contexts (src/common/scheduler.c:16-61, 122-146). */
module RoundRobin {

  /** struct scheduler_saved_registers. */
  datatype Registers = Registers(r11: nat, r10: nat, r9: nat, r8: nat, rsi: nat, rdi: nat, rdx: nat, rcx: nat,
                                 rbx: nat, rax: nat, rbp: nat)

  /** All that is saved and restored on a switch. */
  datatype Context = Context(instructionPointer: nat, stackPointer: nat, rflags: nat, registers: Registers)

  /** `ring` lists the processes along their next links from the current one; `live` is what the CPU holds. */
  datatype Machine<!P> = Machine(ring: seq<P>, saved: map<P, Context>, space: map<P, nat>, live: Context, cr3: nat)

  /** A timer tick, a new process, or the current process computing. */
  datatype Event<!P> = Tick | Spawn(process: P, initial: Context, space: nat) | Work(live: Context)

  ghost predicate Valid<P>(m: Machine<P>) {
    && (forall i, j | 0 <= i < j < |m.ring| :: m.ring[i] != m.ring[j])
    && (forall p | p in m.ring :: p in m.saved && p in m.space)
  }

  function Rotate<T>(s: seq<T>): seq<T> {
    if s == [] then [] else s[1..] + [s[0]]
  }

  lemma RotateKeeps<T>(s: seq<T>)
    requires forall i, j | 0 <= i < j < |s| :: s[i] != s[j]
    ensures var s' := Rotate(s);
            && |s'| == |s| && (forall p :: p in s' <==> p in s)
            && (forall i, j | 0 <= i < j < |s'| :: s'[i] != s'[j])
            && (forall i | 0 <= i < |s| :: s'[i] == if i + 1 < |s| then s[i + 1] else s[0])
  {
    var s' := Rotate(s);
    forall p
      ensures p in s' <==> p in s
    {
      if p in s {
        var i :| 0 <= i < |s| && s[i] == p;
        assert i > 0 ==> s'[i - 1] == p;
        assert i == 0 ==> s'[|s| - 1] == p;
      }
    }
  }

  /** The new process comes right after the current one. */
  function Insert<T>(s: seq<T>, p: T): seq<T> {
    if s == [] then [p] else [s[0], p] + s[1..]
  }

  ghost predicate Enabled<P>(m: Machine<P>, e: Event<P>) {
    match e
    case Tick => m.ring != []
    case Spawn(p, _, _) => p !in m.ring
    case Work(_) => true
  }

  function After<P>(m: Machine<P>, e: Event<P>): Machine<P>
    requires Valid(m) && Enabled(m, e)
  {
    match e
    case Tick =>
      if |m.ring| == 1 then m else
      var next := m.ring[1];
      Machine(Rotate(m.ring), m.saved[m.ring[0] := m.live], m.space, m.saved[next], m.space[next])
    case Spawn(p, initial, space) =>
      Machine(Insert(m.ring, p), m.saved[p := initial], m.space[p := space], m.live, m.cr3)
    case Work(live) => m.(live := live)
  }

  lemma TickSwitches<P>(m: Machine<P>, m': Machine<P>)
    requires Valid(m) && |m.ring| > 1
    requires m'.ring == Rotate(m.ring) && m'.saved == m.saved[m.ring[0] := m.live] && m'.space == m.space
    requires m.ring[1] in m.ring && m'.live == m.saved[m.ring[1]] && m'.cr3 == m.space[m.ring[1]]
    ensures m' == After(m, Tick)
  {}

  /** No step leads out of the valid states, so the validity a run asks of each state follows from the first. */
  lemma AfterIsValid<P>(m: Machine<P>, e: Event<P>)
    requires Valid(m) && Enabled(m, e)
    ensures Valid(After(m, e))
  {}

  ghost predicate Run<P>(states: seq<Machine<P>>, events: seq<Event<P>>) {
    && |states| == |events| + 1 && Valid(states[0])
    && forall k | 0 <= k < |events| :: Stepped(states[k], events[k], states[k + 1])
  }

  ghost predicate Stepped<P>(m: Machine<P>, e: Event<P>, m': Machine<P>) {
    Valid(m) && Enabled(m, e) && m' == After(m, e)
  }

  // ----- Resuming

  predicate Preempts<P(==)>(m: Machine<P>, e: Event<P>, p: P) {
    e.Tick? && |m.ring| > 1 && m.ring[0] == p
  }

  /** What process `p` held when it was last preempted before step `k`; if it was not, what it was started with. */
  ghost function LastHeld<P>(states: seq<Machine<P>>, events: seq<Event<P>>, k: nat, p: P): Context
    requires Run(states, events) && k < |states| && p in states[k].saved
  {
    if k == 0 then states[0].saved[p]
    else
      assert Stepped(states[k - 1], events[k - 1], states[k]);
      if Preempts(states[k - 1], events[k - 1], p) then states[k - 1].live
      else if events[k - 1].Spawn? && events[k - 1].process == p then events[k - 1].initial
      else LastHeld(states, events, k - 1, p)
  }

  /** The saved context of a process is what it last held: other processes' switches, starts and computing leave
      it alone. */
  lemma {:induction false} SavedIsLastHeld<P>(states: seq<Machine<P>>, events: seq<Event<P>>, k: nat, p: P)
    requires Run(states, events) && k < |states| && p in states[k].saved
    ensures states[k].saved[p] == LastHeld(states, events, k, p)
  {
    if k > 0 {
      assert Stepped(states[k - 1], events[k - 1], states[k]);
      if !Preempts(states[k - 1], events[k - 1], p) && !(events[k - 1].Spawn? && events[k - 1].process == p) {
        SavedIsLastHeld(states, events, k - 1, p);
      }
    }
  }

  /** Main result. In any run, a tick that switches makes the CPU hold exactly the context its new current
      process held when last preempted, or was started with; the page table loaded is that process's; and
      the context preempted is kept for the next time. */
  lemma ResumesWhereItLeft<P>(states: seq<Machine<P>>, events: seq<Event<P>>, k: nat)
    requires Run(states, events) && k < |events| && events[k].Tick? && |states[k].ring| > 1
    ensures var next := states[k].ring[1];
            && next in states[k].saved && next in states[k].space
            && states[k + 1].ring != [] && states[k + 1].ring[0] == next
            && states[k + 1].live == LastHeld(states, events, k, next)
            && states[k + 1].cr3 == states[k].space[next]
    ensures states[k].ring[0] in states[k + 1].saved && states[k + 1].saved[states[k].ring[0]] == states[k].live
  {
    assert Stepped(states[k], events[k], states[k + 1]);
    assert states[k].ring[1] in states[k].ring;
    SavedIsLastHeld(states, events, k, states[k].ring[1]);
  }

  /** The page table loaded is the current process's, from the first switch on. */
  lemma {:induction false} SpaceLoaded<P>(states: seq<Machine<P>>, events: seq<Event<P>>, i: nat, k: nat)
    requires Run(states, events) && i < k < |states| && events[i].Tick? && |states[i].ring| > 1
    ensures states[k].ring != [] && states[k].ring[0] in states[k].space
            && states[k].cr3 == states[k].space[states[k].ring[0]]
    decreases k - i
  {
    assert Stepped(states[k - 1], events[k - 1], states[k]);
    if k == i + 1 {
      ResumesWhereItLeft(states, events, i);
    } else {
      SpaceLoaded(states, events, i, k - 1);
      if events[k - 1].Tick? && |states[k - 1].ring| > 1 {
        ResumesWhereItLeft(states, events, k - 1);
      }
    }
  }

  // ----- Starting

  /** The tick makes process `p` current. */
  predicate Loads<P(==)>(m: Machine<P>, e: Event<P>, p: P) {
    e.Tick? && |m.ring| > 1 && m.ring[1] == p
  }

  ghost predicate Waits<P>(m: Machine<P>, p: P) {
    p in m.ring && m.ring[0] != p && p in m.saved && p in m.space
  }

  lemma StillWaits<P>(m: Machine<P>, e: Event<P>, m': Machine<P>, p: P)
    requires Stepped(m, e, m') && Waits(m, p) && !Loads(m, e, p)
    ensures Waits(m', p) && m'.saved[p] == m.saved[p] && m'.space[p] == m.space[p]
  {
    if e.Tick? {
      RotateKeeps(m.ring);
    }
  }

  /** A process that waits is loaded with what was saved when it began to wait. */
  lemma {:induction false} WaitsUntil<P>(states: seq<Machine<P>>, events: seq<Event<P>>, i: nat, k: nat, p: P)
    requires Run(states, events) && i <= k < |events| && Waits(states[i], p) && Loads(states[k], events[k], p)
    requires forall j | i <= j < k :: !Loads(states[j], events[j], p)
    ensures states[k + 1].live == states[i].saved[p] && states[k + 1].cr3 == states[i].space[p]
    decreases k - i
  {
    assert Stepped(states[i], events[i], states[i + 1]);
    if i < k {
      StillWaits(states[i], events[i], states[i + 1], p);
      WaitsUntil(states, events, i + 1, k, p);
    }
  }

  /** A process that is current is preempted before it is loaded. */
  lemma {:induction false} PreemptedFirst<P>(states: seq<Machine<P>>, events: seq<Event<P>>, i: nat, k: nat, p: P)
      returns (j: nat)
    requires Run(states, events) && i <= k < |events| && Loads(states[k], events[k], p)
    requires states[i].ring != [] && states[i].ring[0] == p && p in states[i].space
    ensures i <= j < k && Preempts(states[j], events[j], p) && Waits(states[j + 1], p)
    ensures forall n | i <= n < j :: !Preempts(states[n], events[n], p)
    ensures states[j + 1].saved[p] == states[j].live && states[j + 1].space[p] == states[i].space[p]
    decreases k - i
  {
    assert Stepped(states[i], events[i], states[i + 1]);
    if Preempts(states[i], events[i], p) {
      j := i;
      RotateKeeps(states[i].ring);
    } else {
      assert states[i + 1].ring[0] == p && states[i + 1].space[p] == states[i].space[p];
      j := PreemptedFirst(states, events, i + 1, k, p);
    }
  }

  /** Main result. The first time a new process is loaded the CPU holds exactly the context it was started with, and
      its page table, if another process was there when it was started. The first process of a CPU is current at once
      without being loaded; it is then loaded with what the CPU held when it was first preempted, and the context it
      was started with is lost. */
  lemma FirstLoad<P>(states: seq<Machine<P>>, events: seq<Event<P>>, i: nat, k: nat, p: P)
    requires Run(states, events) && i < k < |events| && events[i].Spawn? && events[i].process == p
    requires Loads(states[k], events[k], p) && forall j | i < j < k :: !Loads(states[j], events[j], p)
    ensures states[k + 1].ring != [] && states[k + 1].ring[0] == p && states[k + 1].cr3 == events[i].space
    ensures states[i].ring != [] ==> states[k + 1].live == events[i].initial
    ensures states[i].ring == [] ==>
              exists j :: i < j < k && Preempts(states[j], events[j], p) && states[k + 1].live == states[j].live
                          && forall n | i < n < j :: !Preempts(states[n], events[n], p)
  {
    assert Stepped(states[i], events[i], states[i + 1]);
    ResumesWhereItLeft(states, events, k);
    if states[i].ring != [] {
      WaitsUntil(states, events, i + 1, k, p);
    } else {
      var j := PreemptedFirst(states, events, i + 1, k, p);
      WaitsUntil(states, events, j + 1, k, p);
    }
  }

  // ----- The ring

  function Ticks<P>(events: seq<Event<P>>): nat {
    if events == [] then 0 else Ticks(events[..|events| - 1]) + if events[|events| - 1].Tick? then 1 else 0
  }

  function Spawns<P>(events: seq<Event<P>>): nat {
    if events == [] then 0 else Spawns(events[..|events| - 1]) + if events[|events| - 1].Spawn? then 1 else 0
  }

  /** Process `p` is `distance` links after the current one. */
  ghost predicate At<P>(m: Machine<P>, p: P, distance: nat) {
    distance < |m.ring| && m.ring[distance] == p
  }

  function Weight<P>(e: Event<P>): int {
    if e.Spawn? then 1 else if e.Tick? then -1 else 0
  }

  lemma OneStep<P>(m: Machine<P>, e: Event<P>, m': Machine<P>, p: P, distance: nat)
    requires Stepped(m, e, m') && At(m, p, distance) && distance > 0
    ensures At(m', p, distance + Weight(e))
  {}

  lemma Prefix<P>(events: seq<Event<P>>, k: nat)
    requires k < |events|
    ensures Ticks(events[..k + 1]) == Ticks(events[..k]) + (if events[k].Tick? then 1 else 0)
    ensures Spawns(events[..k + 1]) == Spawns(events[..k]) + (if events[k].Spawn? then 1 else 0)
  {
    assert events[..k + 1][..k] == events[..k];
  }

  /** Main result. While a process waits, its distance from the current one drops by exactly one with every tick
      and grows by exactly one with every new process. */
  lemma {:induction false} Waiting<P>(states: seq<Machine<P>>, events: seq<Event<P>>, k: nat, p: P, distance: nat)
    requires Run(states, events) && k < |states| && At(states[0], p, distance)
    requires forall j | 0 <= j < k :: !At(states[j], p, 0)
    ensures Ticks(events[..k]) <= distance + Spawns(events[..k])
    ensures At(states[k], p, distance + Spawns(events[..k]) - Ticks(events[..k]))
  {
    hide After;
    if k > 0 {
      Waiting(states, events, k - 1, p, distance);
      Prefix(events, k - 1);
      var d := distance + Spawns(events[..k - 1]) - Ticks(events[..k - 1]);
      assert !At(states[k - 1], p, 0);
      OneStep(states[k - 1], events[k - 1], states[k], p, d);
    } else {
      assert events[..0] == [];
    }
  }

  function Turned<T>(s: seq<T>, j: nat): seq<T>
    requires j <= |s|
  {
    s[j..] + s[..j]
  }

  lemma TurnedStep<T>(s: seq<T>, j: nat)
    requires j < |s|
    ensures Rotate(Turned(s, j)) == Turned(s, j + 1)
  {
    assert s[j..] == [s[j]] + s[j + 1..];
    assert s[..j + 1] == s[..j] + [s[j]];
  }

  lemma {:induction false} CountsGrow<P>(events: seq<Event<P>>, i: nat, k: nat)
    requires i <= k <= |events|
    ensures Spawns(events[..i]) <= Spawns(events[..k]) && Ticks(events[..i]) <= Ticks(events[..k])
    decreases k - i
  {
    if i < k {
      CountsGrow(events, i, k - 1);
      Prefix(events, k - 1);
    }
  }

  /** Without new processes the ring after `k` events is the first ring turned by the number of ticks. */
  lemma {:induction false} RingTurns<P>(states: seq<Machine<P>>, events: seq<Event<P>>, k: nat)
    requires Run(states, events) && k < |states|
    requires Spawns(events[..k]) == 0 && Ticks(events[..k]) <= |states[0].ring|
    ensures states[k].ring == Turned(states[0].ring, Ticks(events[..k]))
  {
    if k > 0 {
      Prefix(events, k - 1);
      RingTurns(states, events, k - 1);
      assert Stepped(states[k - 1], events[k - 1], states[k]);
      if events[k - 1].Tick? {
        TurnedStep(states[0].ring, Ticks(events[..k - 1]));
      }
    } else {
      assert events[..0] == [];
    }
  }

  /** The tick that is preceded by `count` others. */
  lemma {:induction false} TickNumber<P>(events: seq<Event<P>>, k: nat, count: nat) returns (i: nat)
    requires k <= |events| && count < Ticks(events[..k])
    ensures i < k && events[i].Tick? && Ticks(events[..i]) == count
  {
    Prefix(events, k - 1);
    if count < Ticks(events[..k - 1]) {
      i := TickNumber(events, k - 1, count);
    } else {
      i := k - 1;
    }
  }

  /** Process `p` is the one interrupted by event `i`. */
  ghost predicate Interrupts<P>(states: seq<Machine<P>>, events: seq<Event<P>>, i: nat, p: P)
    requires i < |events| && i < |states|
  {
    events[i].Tick? && At(states[i], p, 0)
  }

  /** Main result. With n processes and no new ones, n ticks bring the ring back to where it was, and in
      between each process is current for exactly one tick. */
  lemma FullTurn<P>(states: seq<Machine<P>>, events: seq<Event<P>>, k: nat, p: P)
    requires Run(states, events) && k < |states| && p in states[0].ring
    requires Spawns(events[..k]) == 0 && Ticks(events[..k]) == |states[0].ring|
    ensures states[k].ring == states[0].ring
    ensures exists i: nat :: i < k && Interrupts(states, events, i, p)
    ensures forall i: nat, j: nat | i < j < k :: !(Interrupts(states, events, i, p) && Interrupts(states, events, j, p))
  {
    RingTurns(states, events, k);
    var distance :| 0 <= distance < |states[0].ring| && states[0].ring[distance] == p;
    var i := TickNumber(events, k, distance);
    TickInterrupts(states, events, k, i);
    assert Interrupts(states, events, i, p);
    forall i: nat, j: nat | i < j < k && events[i].Tick? && events[j].Tick?
      ensures !(Interrupts(states, events, i, p) && Interrupts(states, events, j, p))
    {
      TickInterrupts(states, events, k, i);
      TickInterrupts(states, events, k, j);
      Prefix(events, i);
      CountsGrow(events, i + 1, j);
    }
  }

  /** The processes take the ticks in ring order. */
  lemma TickInterrupts<P>(states: seq<Machine<P>>, events: seq<Event<P>>, k: nat, i: nat)
    requires Run(states, events) && i < k < |states| && events[i].Tick?
    requires Spawns(events[..k]) == 0 && Ticks(events[..k]) == |states[0].ring|
    ensures Ticks(events[..i]) < |states[0].ring| && At(states[i], states[0].ring[Ticks(events[..i])], 0)
  {
    Prefix(events, i);
    CountsGrow(events, i + 1, k);
    CountsGrow(events, i, k);
    RingTurns(states, events, i);
  }
}
