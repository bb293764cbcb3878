/** The round-robin scheduler of a CPU (src/common/scheduler.c). */
module Scheduler {
  import opened RoundRobin
  import opened Wrappers
  import opened PageTables
  import opened AddressSpace
  import opened PagingCursor
  import opened PagingProperties
  import opened Paging
  import opened Placement
  import opened PlacementProperties
  import opened SpaceSetup

  /** struct scheduler_process. */
  class Process {
    const context: PagingContext       // paging_context
    const level4Table: nat             // its level4_table, set once
    var next: Process?
    var savedInstructionPointer: nat
    var savedStackPointer: nat
    var savedRflags: nat
    var savedRegisters: Registers

    constructor (context: PagingContext, level4Table: nat, entrypoint: nat, stackPointer: nat)
      ensures this.context == context && this.level4Table == level4Table
      ensures next == null && savedInstructionPointer == entrypoint && savedStackPointer == stackPointer
      ensures savedRflags == 0x246 && savedRegisters == Registers(0, 0, 0, 0, 0, 0, 0, 0, 0, 0, 0)
    {
      this.context, this.level4Table := context, level4Table;
      next := null;
      savedRflags := 0x246;
      savedRegisters := Registers(0, 0, 0, 0, 0, 0, 0, 0, 0, 0, 0);
      savedStackPointer := stackPointer;
      savedInstructionPointer := entrypoint;
    }

    ghost function Saved(): Context
      reads this
    {
      Context(savedInstructionPointer, savedStackPointer, savedRflags, savedRegisters)
    }
  }

  /** struct scheduler_interrupt_frame: what the interrupt stub pushed, and what it will pop. */
  class InterruptFrame {
    var registers: Registers
    var instructionPointer: nat
    var rflags: nat
    var stackPointer: nat

    ghost function Held(): Context
      reads this
    {
      Context(instructionPointer, stackPointer, rflags, registers)
    }
  }

  /** The interrupt frame holds, field by field, what a process had saved. */
  twostate predicate Loaded(stack: InterruptFrame, next: Process)
    reads stack
  {
    && stack.instructionPointer == old(next.savedInstructionPointer)
    && stack.stackPointer == old(next.savedStackPointer)
    && stack.rflags == old(next.savedRflags) && stack.registers == old(next.savedRegisters)
  }

  /** A process has saved, field by field, what the interrupt frame held. */
  twostate predicate Preserved(current: Process, stack: InterruptFrame)
    reads current
  {
    && current.savedInstructionPointer == old(stack.instructionPointer)
    && current.savedStackPointer == old(stack.stackPointer)
    && current.savedRflags == old(stack.rflags) && current.savedRegisters == old(stack.registers)
  }

  ghost predicate Cyclic(ring: seq<Process>)
    reads ring
  {
    forall i {:trigger ring[i].next} | 0 <= i < |ring| :: ring[i].next == Following(ring, i)
  }

  ghost function Following(ring: seq<Process>, i: nat): Process
    requires i < |ring|
  {
    if i + 1 < |ring| then ring[i + 1] else ring[0]
  }

  ghost function SavedOf(ring: seq<Process>): map<Process, Context>
    reads ring
  {
    map p <- ring :: p.Saved()
  }

  ghost function SpacesOf(ring: seq<Process>): map<Process, nat>
  {
    map p <- ring :: p.level4Table
  }

  lemma LinksTurn(ring: seq<Process>, ring': seq<Process>)
    requires Cyclic(ring) && ring' == Rotate(ring)
    ensures Cyclic(ring')
  {
    forall i | 0 <= i < |ring'|
      ensures ring'[i].next == Following(ring', i)
    {
      var k := if i + 1 < |ring| then i + 1 else 0;
      assert ring[k].next == Following(ring, k);
    }
  }

  lemma MapsTurn(ring: seq<Process>)
    requires forall i, j | 0 <= i < j < |ring| :: ring[i] != ring[j]
    ensures |Rotate(ring)| == |ring|
    ensures forall i, j | 0 <= i < j < |ring| :: Rotate(ring)[i] != Rotate(ring)[j]
    ensures SavedOf(Rotate(ring)) == SavedOf(ring) && SpacesOf(Rotate(ring)) == SpacesOf(ring)
  {
    RotateKeeps(ring);
  }

  /** struct cpu, as far as the scheduler goes. */
  class Cpu {
    const localApicPhysical: nat
    var currentProcess: Process?
    var cr3: nat
    ghost var ring: seq<Process>   // the processes along their next links, from the current one

    /** The next links form one cycle through every process. */
    ghost predicate Valid()
      reads this, ring
    {
      && (forall i, j | 0 <= i < j < |ring| :: ring[i] != ring[j])
      && Cyclic(ring)
      && currentProcess == if ring == [] then null else ring[0]
    }

    /** The CPU as a state of the round-robin machine. */
    ghost function View(live: Context): (m: Machine<Process>)
      reads this, ring
    {
      Machine(ring, SavedOf(ring), SpacesOf(ring), live, cr3)
    }

    constructor (localApicPhysical: nat)
      ensures Valid() && ring == [] && this.localApicPhysical == localApicPhysical
    {
      this.localApicPhysical := localApicPhysical;
      currentProcess, cr3, ring := null, 0, [];
    }

    /** scheduler_handle_interrupt: the timer tick. */
    method HandleInterrupt(stack: InterruptFrame)
      requires Valid() && ring != []
      modifies this`currentProcess, this`cr3, this`ring, stack, currentProcess
      ensures Valid()
      ensures View(stack.Held()) == After(old(View(stack.Held())), Tick)
      ensures |ring| == 1 ==> stack.Held() == old(stack.Held()) && cr3 == old(cr3)
      ensures |ring| > 1 ==>
                && stack.instructionPointer == old(ring[1].savedInstructionPointer)
                && stack.stackPointer == old(ring[1].savedStackPointer)
                && stack.rflags == old(ring[1].savedRflags) && stack.registers == old(ring[1].savedRegisters)
                && cr3 == old(ring[1]).level4Table
      ensures |ring| > 1 ==>
                && old(ring[0]).savedInstructionPointer == old(stack.instructionPointer)
                && old(ring[0]).savedStackPointer == old(stack.stackPointer)
                && old(ring[0]).savedRflags == old(stack.rflags)
                && old(ring[0]).savedRegisters == old(stack.registers)
    {
      assert ring[0].next == Following(ring, 0);
      var next := currentProcess.next;
      if currentProcess != next {
        SwitchTo(next, stack);
      }
    }

    /** The branch that switches, as a step of the machine. */
    method SwitchTo(next: Process, stack: InterruptFrame)
      requires Valid() && |ring| > 1 && next == ring[1]
      modifies this`currentProcess, this`cr3, this`ring, stack, currentProcess
      ensures Valid() && |ring| > 1
      ensures View(stack.Held()) == After(old(View(stack.Held())), Tick)
      ensures Loaded(stack, next) && Preserved(old(ring[0]), stack) && cr3 == next.level4Table
    {
      ghost var view := View(stack.Held());
      LoadNext(next, stack);
      MapsTurn(view.ring);
      TickSwitches(view, View(stack.Held()));
    }

    method LoadNext(next: Process, stack: InterruptFrame)
      requires Valid() && |ring| > 1 && next == ring[1]
      modifies this`currentProcess, this`cr3, this`ring, stack, currentProcess
      ensures Valid()
      ensures ring == Rotate(old(ring)) && stack.Held() == old(next.Saved()) && cr3 == next.level4Table
      ensures SavedOf(ring) == old(SavedOf(ring))[old(ring[0]) := old(stack.Held())]
      ensures Loaded(stack, next) && Preserved(old(ring[0]), stack)
    {
      hide Rotate;
      Switch(currentProcess, next, stack, ring);
      cr3 := next.level4Table;
      TurnTo(next);
    }

    method TurnTo(next: Process)
      requires Valid() && |ring| > 1 && next == ring[1]
      modifies this`currentProcess, this`ring
      ensures Valid() && ring == Rotate(old(ring))
      ensures SavedOf(ring) == old(SavedOf(ring))
    {
      hide SavedOf, SpacesOf;
      currentProcess := next;
      MapsTurn(ring);
      LinksTurn(ring, Rotate(ring));
      ring := Rotate(ring);
    }

    /** The insertion of scheduler_execute: a new process comes right after the current one. */
    method InsertProcess(process: Process)
      requires Valid() && process !in ring
      modifies this`currentProcess, this`ring, process`next, currentProcess
      ensures Valid() && ring == Insert(old(ring), process)
      ensures SavedOf(old(ring)) == old(SavedOf(ring))
      ensures unchanged(process`savedInstructionPointer, process`savedStackPointer, process`savedRflags)
      ensures unchanged(process`savedRegisters)
    {
      ghost var before := ring;
      if currentProcess != null {
        assert ring[0].next == Following(ring, 0);
        process.next := currentProcess.next;
        currentProcess.next := process;
      } else {
        process.next := process;
        currentProcess := process;
      }
      ring := Insert(ring, process);
    }

    /** scheduler_execute: a new process with its own address space enters the ring. */
    method Execute(pager: Pager, entrypoint: nat, maxMemory: nat, ghost live: Context)
        returns (r: Outcome, process: Process?)
      requires Valid() && pager.Valid() && 0 < maxMemory <= TOP && localApicPhysical % PAGE == 0
      modifies this`currentProcess, this`ring, currentProcess
      modifies pager`tables, pager`nodes, pager`roots, pager`frames, pager`usedVirtualPages, pager.physical,
      pager.physical.table
      ensures Valid() && pager.Valid()
      ensures r.Succeeds? || (r.Spins? && !pager.physical.HasFree() && ring == old(ring))
      ensures r.Succeeds? ==>
                && process != null && fresh(process) && ring == Insert(old(ring), process)
                && process.savedInstructionPointer == entrypoint && process.savedStackPointer == 0x100_0000_8000
                && process.savedRflags == 0x246 && process.savedRflags / 0x200 % 2 == 1
                && process.savedRegisters == Registers(0, 0, 0, 0, 0, 0, 0, 0, 0, 0, 0)
                && Started(entrypoint) == process.Saved()
                && SpaceBuilt(old(pager.Spaces()), pager.Spaces(), process.level4Table, maxMemory, localApicPhysical)
                && Ready(pager.tables, process.level4Table, process.context.table, process.context.index, FIRST_FREE)
                && Spawned(old(View(live)), View(live), process)
    {
      hide Tree, SpaceBuilt, Ready;
      var context, top;
      process := null;
      r, context, top := Prepare(pager, maxMemory, live);
      if r.Succeeds? {
        process := Enter(context, entrypoint, top, live);
      }
    }

    /** Its first part, the address space, leaves the ring alone. */
    method Prepare(pager: Pager, maxMemory: nat, ghost live: Context)
        returns (r: Outcome, context: PagingContext, top: nat)
      requires Valid() && pager.Valid() && 0 < maxMemory <= TOP && localApicPhysical % PAGE == 0
      modifies pager`tables, pager`nodes, pager`roots, pager`frames, pager`usedVirtualPages, pager.physical,
      pager.physical.table
      ensures Valid() && pager.Valid() && View(live) == old(View(live))
      ensures r.Succeeds? || (r.Spins? && !pager.physical.HasFree())
      ensures r.Succeeds? ==>
                && |context.table| == 4 && top == 0x100_0000_8000
                && SpaceBuilt(old(pager.Spaces()), pager.Spaces(), context.table[3], maxMemory, localApicPhysical)
                && Ready(pager.tables, context.table[3], context.table, context.index, FIRST_FREE)
    {
      hide Tree, SpaceAdded, Ready;
      ghost var stack;
      r, context, top, stack := BuildSpace(pager, maxMemory, localApicPhysical);
      assert r.Succeeds? ==>
          SpaceAdded(old(pager.Spaces()), pager.Spaces(), context.table[3], maxMemory, localApicPhysical, stack);
    }

    /** Its last part: the process structure is filled in and inserted, with the timer interrupt off. */
    method Enter(context: PagingContext, entrypoint: nat, top: nat, ghost live: Context) returns (process: Process)
      requires Valid() && |context.table| == 4
      modifies this`currentProcess, this`ring, currentProcess
      ensures Valid() && fresh(process) && ring == Insert(old(ring), process)
      ensures process.savedInstructionPointer == entrypoint && process.savedStackPointer == top
      ensures process.savedRflags == 0x246 && process.savedRegisters == Registers(0, 0, 0, 0, 0, 0, 0, 0, 0, 0, 0)
      ensures process.context == context && process.level4Table == context.table[3]
      ensures Spawned(old(View(live)), View(live), process)
    {
      ghost var before := ring;
      process := new Process(context, context.table[3], entrypoint, top);
      InsertProcess(process);
      SpawnInserts(before, ring, process);
    }
  }

  /** The context a process is started with: at its entrypoint, on the stack that ends at 1 TiB + 32 KiB, with
      interrupts on, its registers 0. */
  function Started(entrypoint: nat): Context {
    Context(entrypoint, 0x100_0000_8000, 0x246, Registers(0, 0, 0, 0, 0, 0, 0, 0, 0, 0, 0))
  }

  /** Main result. The first switch to a new process, if it is not the first of its CPU, makes the CPU continue at its
      entrypoint, on its empty stack, with interrupts on, all eleven registers 0 and its page table. */
  lemma StartsAtEntrypoint(states: seq<Machine<Process>>, events: seq<RoundRobin.Event<Process>>, i: nat, k: nat,
                           process: Process, entrypoint: nat)
    requires RoundRobin.Run(states, events) && i < k < |events| && states[i].ring != []
    requires events[i] == Spawn(process, Started(entrypoint), process.level4Table)
    requires Loads(states[k], events[k], process) && forall j | i < j < k :: !Loads(states[j], events[j], process)
    ensures var live, registers := states[k + 1].live, states[k + 1].live.registers;
            && live.instructionPointer == entrypoint && live.stackPointer == 0x100_0000_8000
            && live.rflags == 0x246 && live.rflags / 0x200 % 2 == 1
            && registers.rax == registers.rbx == registers.rcx == registers.rdx == registers.rsi == registers.rdi == 0
            && registers.rbp == registers.r8 == registers.r9 == registers.r10 == registers.r11 == 0
            && states[k + 1].cr3 == process.level4Table
  {
    FirstLoad(states, events, i, k, process);
  }

  /** The machine after a new process was inserted. */
  ghost predicate Spawned(m: Machine<Process>, m': Machine<Process>, process: Process)
    reads process
  {
    RoundRobin.Valid(m) && process !in m.ring && m' == After(m, Spawn(process, process.Saved(), process.level4Table))
  }

  /** With the saved contexts of the others unchanged, the new ring is the machine's after the spawn. */
  lemma SpawnInserts(ring: seq<Process>, ring': seq<Process>, process: Process)
    requires process !in ring && ring' == Insert(ring, process)
    ensures SavedOf(ring') == SavedOf(ring)[process := process.Saved()]
    ensures SpacesOf(ring') == SpacesOf(ring)[process := process.level4Table]
  {
    assert forall p :: p in ring' <==> p in ring || p == process;
  }

  /** The address-space part of scheduler_execute. `top` is the initial stack pointer. */
  method BuildSpace(pager: Pager, maxMemory: nat, localApicPhysical: nat)
      returns (r: Outcome, context: PagingContext, top: nat, ghost stack: seq<nat>)
    requires pager.Valid() && 0 < maxMemory <= TOP && localApicPhysical % PAGE == 0
    modifies pager`tables, pager`nodes, pager`roots, pager`frames, pager`usedVirtualPages, pager.physical,
             pager.physical.table
    ensures pager.Valid() && fresh(context)
    ensures r.Succeeds? || (r.Spins? && !pager.physical.HasFree())
    ensures r.Succeeds? ==>
              && |context.table| == 4 && top == 0x100_0000_8000
              && SpaceAdded(old(pager.Spaces()), pager.Spaces(), context.table[3], maxMemory, localApicPhysical, stack)
              && Ready(pager.tables, context.table[3], context.table, context.index, FIRST_FREE)
  {
    hide Tree;
    r, top, stack := Spins, 0, [];
    var root := TakeProcessAndRoot(pager);
    context := new PagingContext(if root.Some? then root.value else 0);
    if root.Some? {
      ghost var t1, frames1 := pager.tables, pager.frames;
      r, top, stack := FillSpace(pager, context, maxMemory, localApicPhysical);
      if r.Succeeds? {
        SameTransitive(old(pager.tables), t1, pager.tables, old(pager.roots), pager.roots - {root.value});
        GrantedAreNew(old(pager.frames), frames1, pager.frames, stack);
      }
    }
  }

  /** The three mappings. */
  method FillSpace(pager: Pager, context: PagingContext, maxMemory: nat, localApicPhysical: nat)
      returns (r: Outcome, top: nat, ghost stack: seq<nat>)
    requires pager.Valid() && |context.table| == 4 && context.table[3] in pager.roots
    requires context.table == [0, 0, 0, context.table[3]] && context.index == [0, 0, 0, 0]
    requires Blank(pager.tables, context.table[3]) && 0 < maxMemory <= TOP && localApicPhysical % PAGE == 0
    modifies pager`tables, pager`nodes, pager`frames, pager`usedVirtualPages, context, pager.physical,
             pager.physical.table
    ensures pager.Valid()
    ensures r.Succeeds? || (r.Spins? && !pager.physical.HasFree())
    ensures r.Succeeds? ==>
              && |context.table| == 4 && top == 0x100_0000_8000 && context.table[3] == old(context.table[3])
              && Built(pager.tables, context.table[3], maxMemory, localApicPhysical, stack)
              && Ready(pager.tables, context.table[3], context.table, context.index, FIRST_FREE)
              && Granted(old(pager.frames), pager.frames, stack)
              && SameSpaces(old(pager.tables), pager.tables, pager.roots - {context.table[3]})
  {
    hide Tree;
    ghost var t0, others := pager.tables, pager.roots - {context.table[3]};
    top, stack := 0, [];
    r := MapLowMemory(pager, context, maxMemory);
    if r.Succeeds? {
      ghost var t1 := pager.tables;
      r := MapApic(pager, context, localApicPhysical, maxMemory);
      if r.Succeeds? {
        ghost var t2 := pager.tables;
        SameTransitive(t0, t1, t2, others, others);
        r, top, stack := MapStack(pager, context, localApicPhysical, maxMemory);
        if r.Succeeds? {
          SameTransitive(t0, t2, pager.tables, others, others);
        }
      }
    }
  }

  /** The pages of the process structure and of its level-4 table. */
  method TakeProcessAndRoot(pager: Pager) returns (root: Option<nat>)
    requires pager.Valid()
    modifies pager`tables, pager`nodes, pager`roots, pager`frames, pager.physical, pager.physical.table
    ensures pager.Valid()
    ensures root == None ==> !pager.physical.HasFree()
    ensures old(pager.frames) <= pager.frames
    ensures root.Some? ==>
              && root.value !in old(pager.roots) && pager.roots == old(pager.roots) + {root.value}
              && root.value in pager.tables && Blank(pager.tables, root.value)
              && SameSpaces(old(pager.tables), pager.tables, old(pager.roots))
  {
    root := None;
    if pager.physical.HasFree() {
      var page := pager.TakeFrame();
      root := pager.NewSpace();
    }
  }

  /** Identity-maps memory with 1 GiB pages, or with 2 MiB pages where those are not supported. */
  method MapLowMemory(pager: Pager, context: PagingContext, maxMemory: nat) returns (r: Outcome)
    requires pager.Valid() && |context.table| == 4 && context.table[3] in pager.roots
    requires Blank(pager.tables, context.table[3]) && 0 < maxMemory <= TOP
    modifies pager`tables, pager`nodes, pager`usedVirtualPages, pager.physical, pager.physical.table
    ensures pager.Valid()
    ensures r.Succeeds? || (r.Spins? && !pager.physical.HasFree())
    ensures r.Succeeds? ==>
              && IdentityPages(pager.tables, context.table[3], maxMemory) && LowMapped(pager.tables, context.table[3])
              && (if pager.hugePagesSupported then
                    forall m: nat | m * 0x4000_0000 < maxMemory :: Slot(pager.tables, context.table[3], 3, m).size
                  else forall m: nat | m * 0x20_0000 < maxMemory :: Slot(pager.tables, context.table[3], 2, m).size)
              && SameSpaces(old(pager.tables), pager.tables, pager.roots - {context.table[3]})
  {
    var huge := pager.hugePagesSupported;
    ghost var t0, root, bytes, flags := pager.tables, context.table[3], IdentityBytes(maxMemory,
        huge), IdentityFlags(huge);
    IdentitySucceeds(t0, root, maxMemory, huge);
    var mapped;
    ghost var count;
    if huge {
      r, mapped, count := pager.MapPhysicalAt(context, 0, 0, AlignToNext(maxMemory, 0x4000_0000),
                                              Flags(true, false, true, false, false));
    } else {
      r, mapped, count := pager.MapPhysicalAt(context, 0, 0, AlignToNext(maxMemory, 0x20_0000),
                                              Flags(true, false, false, true, false));
    }
    if r.Spins? {
    } else {
      MapEndsAs(t0, pager.tables, pager.roots, root, 0, 0, bytes, flags, huge, count, r);
      IdentityLooked(t0, pager.tables, pager.roots, root, maxMemory, huge, count);
    }
  }

  method MapApic(pager: Pager, context: PagingContext, localApicPhysical: nat,
                 ghost maxMemory: nat) returns (r: Outcome)
    requires pager.Valid() && |context.table| == 4 && context.table[3] in pager.roots
    requires LowMapped(pager.tables, context.table[3]) && localApicPhysical % PAGE == 0
    requires IdentityPages(pager.tables, context.table[3], maxMemory) && maxMemory <= TOP
    modifies pager`tables, pager`nodes, pager`usedVirtualPages, pager.physical, pager.physical.table
    ensures pager.Valid()
    ensures r.Succeeds? || (r.Spins? && !pager.physical.HasFree())
    ensures r.Succeeds? ==>
              && IdentityPages(pager.tables, context.table[3], maxMemory)
              && ApicPage(pager.tables, context.table[3], localApicPhysical)
              && Ready(pager.tables, context.table[3], [0, 0, 0, context.table[3]], [0, 0, 0, 0], 0x1000_0000)
              && SameSpaces(old(pager.tables), pager.tables, pager.roots - {context.table[3]})
  {
    ghost var t0, root, huge := pager.tables, context.table[3], pager.hugePagesSupported;
    ApicSucceeds(t0, root, localApicPhysical, huge);
    var mapped;
    ghost var count;
    r, mapped, count := pager.MapPhysicalAt(context, localApicPhysical, APIC, APIC_BYTES, APIC_FLAGS);
    if !r.Spins? {
      MapEndsAs(t0, pager.tables, pager.roots, root, APIC, localApicPhysical, APIC_BYTES, APIC_FLAGS, huge, count, r);
      ApicLooked(t0, pager.tables, pager.roots, root, maxMemory, localApicPhysical, huge, count);
    }
  }

  method MapStack(pager: Pager, context: PagingContext, ghost localApicPhysical: nat, ghost maxMemory: nat)
      returns (r: Outcome, top: nat, ghost stack: seq<nat>)
    requires pager.Valid() && |context.table| == 4 && context.table[3] in pager.roots && maxMemory <= TOP
    requires context.table == [0, 0, 0, context.table[3]] && context.index == [0, 0, 0, 0]
    requires IdentityPages(pager.tables, context.table[3], maxMemory)
    requires ApicPage(pager.tables, context.table[3], localApicPhysical)
    requires Ready(pager.tables, context.table[3], [0, 0, 0, context.table[3]], [0, 0, 0, 0], 0x1000_0000)
    modifies pager`tables, pager`nodes, pager`frames, pager`usedVirtualPages, context, pager.physical,
             pager.physical.table
    ensures pager.Valid()
    ensures r.Succeeds? || (r.Spins? && !pager.physical.HasFree())
    ensures r.Succeeds? ==>
              && |context.table| == 4 && top == 0x100_0000_8000 && context.table[3] == old(context.table[3])
              && Built(pager.tables, context.table[3], maxMemory, localApicPhysical, stack)
              && Ready(pager.tables, context.table[3], context.table, context.index, FIRST_FREE)
              && Granted(old(pager.frames), pager.frames, stack)
              && SameSpaces(old(pager.tables), pager.tables, pager.roots - {context.table[3]})
  {
    hide Tree;
    ghost var t0, nodes0, root, frames0 := pager.tables, pager.nodes, context.table[3], pager.frames;
    var mapped;
    FreshSpot(t0, nodes0, pager.roots, root, context.table, context.index);
    r, mapped, stack := pager.Map(context, STACK_BYTES, STACK_FLAGS, 0x1000_0000);
    top := mapped + STACK_BYTES;
    if r.Succeeds? {
      StackDone(t0, nodes0, pager.tables, pager.nodes, pager.roots, root, context.table, context.index, frames0,
                pager.frames, stack, maxMemory, localApicPhysical);
    }
  }

  /** The stack goes where the fresh cursor is ready: at 1 TiB, and 8 pages from there fit. */
  lemma FreshSpot(t: Tables, nodes: map<nat, Node>, roots: set<nat>, root: nat, table: seq<nat>, index: seq<nat>)
    requires Tree(t, nodes, roots) && root in roots && Ready(t, root, table, index, 0x1000_0000)
             && table == [0, 0, 0, root]
    ensures NextSpot(t, table, index, 0x1000_0000, STACK_BYTES) == 0x1000_0000
    ensures PageCount(STACK_BYTES, 1) == 8 && 0x1000_0008 < Slots(1)
  {
    InUse(t, nodes, roots, root, 0x1000_0000, table, index);
    SlotCounts();
  }

  lemma StackDone(t0: Tables, nodes0: map<nat, Node>, t1: Tables, nodes1: map<nat, Node>, roots: set<nat>, root: nat,
                  table: seq<nat>, index: seq<nat>, frames0: set<nat>, frames1: set<nat>, stack: seq<nat>,
                  maxMemory: nat, localApicPhysical: nat)
    requires root in roots && Tree(t0, nodes0, roots) && Tree(t1, nodes1, roots)
    requires Ready(t0, root, [0, 0, 0, root], [0, 0, 0, 0], 0x1000_0000) && Granted(frames0, frames1, stack)
    requires MappedAtSpot(t0, t1, roots, root, 0x1000_0000, 8, FrameLeaves(stack, STACK_FLAGS), table, index, Succeeds)
    requires maxMemory <= TOP && IdentityPages(t0, root, maxMemory) && ApicPage(t0, root, localApicPhysical)
    ensures Built(t1, root, maxMemory, localApicPhysical, stack) && SameSpaces(t0, t1, roots - {root})
    ensures Ready(t1, root, table, index, FIRST_FREE)
  {
    hide Lookup, LeafOf;
    var cursors := map[root := 0x1000_0000];
    assert forall i | 0 <= i < |stack| :: Framed(stack[i]);
    StackLeaves(t0, nodes0, t1, roots, root, [0, 0, 0, root], [0, 0, 0, 0], stack);
    MapIsCall(t0, nodes0, t1, nodes1, roots, root, [0, 0, 0, root], [0, 0, 0, 0], table, index,
              cursors, 0x1000_0000, 8, frames0, frames1, stack, STACK_FLAGS);
    StackLooked(World(t0, cursors, frames0), World(t1, cursors[root := FIRST_FREE], frames1), root, maxMemory,
                localApicPhysical, stack);
    FilledElsewhere(t0, t1, roots, root, 1, 0x1000_0000, FrameLeaves(stack, STACK_FLAGS));
  }

  /** Saves the interrupted context in one process and loads another's into the interrupt frame. */
  method Switch(current: Process, next: Process, stack: InterruptFrame, ghost ring: seq<Process>)
    requires current != next && current in ring
    modifies stack, current`savedRflags, current`savedInstructionPointer, current`savedStackPointer,
    current`savedRegisters
    ensures Loaded(stack, next) && Preserved(current, stack)
    ensures SavedOf(ring) == old(SavedOf(ring))[current := old(stack.Held())]
  {
    current.savedRflags := stack.rflags;
    current.savedInstructionPointer := stack.instructionPointer;
    current.savedStackPointer := stack.stackPointer;
    current.savedRegisters := stack.registers;

    stack.instructionPointer := next.savedInstructionPointer;
    stack.stackPointer := next.savedStackPointer;
    stack.rflags := next.savedRflags;
    stack.registers := next.savedRegisters;
  }
}
