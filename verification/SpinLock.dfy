/** Any number of CPUs calling the physical page allocator, one shared-memory access at a time, under its
    test-and-test-and-set lock (src/common/lock.c, src/common/memory_physical.c:29-146). */
module SpinLock {
  import opened PhysicalMemory

  /** The calls a CPU makes; pages are numbers of 4 KiB pages. A free is given an address, which may name any page. */
  datatype Call = Allocate | Free(page: nat) | Reserve(first: nat, end: nat)

  /** What a store to the bitmap does for the pages' ownership. */
  datatype Change = Take | Give | Keep

  /** Where a CPU is: each constructor names its next access to shared memory. */
  datatype Place =
    | Outside
    | Acquiring(call: Call, once: bool)                             // lock cmpxchg
    | Pausing(call: Call)                                           // load lock_state
    | Entered(call: Call)                                           // the call's first access inside
    | Scanning(start: nat, spot: nat)                               // load allocation_table[spot]
    | Reserving(page: nat, end: nat)                                // load allocation_table[page / 64]
    | Changing(change: Change, page: nat, after: Place)             // load the word to be changed
    | Storing(change: Change, page: nat, word: Word, after: Place)  // store it back
    | Hinting(spot: nat, after: Place)                              // store allocation_index
    | Counting(delta: int, after: Place)                            // load used_physical_pages
    | CountStoring(delta: int, loaded: int, after: Place)           // store it back
    | Releasing                                                     // store lock_state

  datatype Cpu = Cpu(place: Place, owned: set<nat>, acquired: nat, released: nat)

  datatype State = State(lock: nat, table: seq<Word>, index: nat, used: int, reserved: set<nat>, cpus: seq<Cpu>)

  predicate Inside(c: Cpu) {
    !c.place.Outside? && !c.place.Acquiring? && !c.place.Pausing?
  }

  // ----- The steps

  /** The index of the lowest zero bit. */
  function LowestClear(w: nat): nat {
    if w % 2 == 0 then 0 else 1 + LowestClear(w / 2)
  }

  lemma {:induction false} LowestClearIs(w: nat, width: nat)
    requires w < Ones(width)
    ensures LowestClear(w) < width && !Bit(w, LowestClear(w))
    ensures forall k: nat | k < LowestClear(w) :: Bit(w, k)
  {
    if w % 2 == 1 {
      LowestClearIs(w / 2, width - 1);
      forall k: nat | k < LowestClear(w)
        ensures Bit(w, k)
      {
        assert k > 0 ==> Bit(w / 2, k - 1);
      }
    }
  }

  /** The page a free acts on: its word index is kept in a 32-bit int, so the upper bits of the page number are lost. */
  function Target(page: nat): nat {
    page / 64 % 0x1_0000_0000 * 64 + page % 64
  }

  /** What a free demands of its argument: the page acted on is the caller's own, or lies past the table. */
  predicate MayFree(words: nat, owned: set<nat>, page: nat) {
    Target(page) in owned || Target(page) / 64 >= words
  }

  /** A CPU outside the allocator calls it. */
  ghost predicate MayCall(s: State, c: Cpu, call: Call) {
    c.place.Outside? && (call.Free? ==> MayFree(|s.table|, c.owned, call.page))
  }

  function Moved(s: State, i: nat, place: Place): State
    requires i < |s.cpus|
  {
    s.(cpus := s.cpus[i := s.cpus[i].(place := place)])
  }

  /** The next access of CPU `i`. */
  function Step(s: State, i: nat): State
    requires i < |s.cpus| && InTable(s, s.cpus[i].place)
  {
    var c := s.cpus[i];
    match c.place
    case Outside => s
    case Acquiring(call, once) =>
      if s.lock == 0 then
        s.(lock := 1, cpus := s.cpus[i := c.(place := Entered(call), acquired := c.acquired + 1)])
      else Moved(s, i, if once then Outside else Pausing(call))
    case Pausing(call) => Moved(s, i, if s.lock != 0 then Pausing(call) else Acquiring(call, false))
    case Entered(call) => Moved(s, i, First(s, call))
    case Scanning(start, spot) =>
      var word := s.table[spot];
      if word == FULL then Moved(s, i, Scanning(start, if spot + 1 >= |s.table| then 0 else spot + 1))
      else Moved(s, i, Changing(Take, spot * 64 + LowestClear(word), Hinting(spot, Counting(1, Releasing))))
    case Reserving(page, end) =>
      if page >= end || page >= |s.table| then Moved(s, i, Releasing)
      else if Bit(s.table[page / 64], page % 64) then Moved(s, i, Reserving(page + 1, end))
      else Moved(s, i, Changing(Keep, page, Counting(1, Reserving(page + 1, end))))
    case Changing(change, page, after) => Moved(s, i, Storing(change, page, s.table[page / 64], after))
    case Storing(change, page, word, after) => Stored(s, i, change, page, word, after)
    case Hinting(spot, after) => Moved(s.(index := spot), i, after)
    case Counting(delta, after) => Moved(s, i, CountStoring(delta, s.used, after))
    case CountStoring(delta, loaded, after) => Moved(s.(used := loaded + delta), i, after)
    case Releasing => s.(lock := 0, cpus := s.cpus[i := c.(place := Outside, released := c.released + 1)])
  }

  /** An access touches no other CPU; only a cmpxchg that finds the lock free takes it, one that finds it taken leaves
      or waits as the call says, only a release frees it, and only a store to the bitmap changes a word, one of them. */
  lemma StepTouches(s: State, i: nat)
    requires i < |s.cpus| && InTable(s, s.cpus[i].place)
    ensures var s' := Step(s, i);
            && |s'.cpus| == |s.cpus| && (forall j | 0 <= j < |s.cpus| && j != i :: s'.cpus[j] == s.cpus[j])
            && (s'.cpus[i].acquired > s.cpus[i].acquired ==> s.cpus[i].place.Acquiring? && s.lock == 0 && s'.lock == 1)
            && (s.cpus[i].place.Acquiring? && s.lock != 0 ==>
                  s'.cpus[i].place == if s.cpus[i].place.once then Outside else Pausing(s.cpus[i].place.call))
            && (s'.lock != s.lock ==> s.cpus[i].place.Acquiring? || s.cpus[i].place.Releasing?)
            && (s'.index != s.index ==> s.cpus[i].place.Hinting? && s'.index == s.cpus[i].place.spot)
            && |s'.table| == |s.table|
            && forall k | 0 <= k < |s.table| && s'.table[k] != s.table[k] ::
                 s.cpus[i].place.Storing? && s.cpus[i].place.page / 64 == k
  {}

  /** What a call does first inside the lock. A free ends at once when the page it acts on lies past the table or is
      not marked. */
  function First(s: State, call: Call): Place {
    match call
    case Allocate => Scanning(s.index, s.index)
    case Reserve(first, end) => Reserving(first, end)
    case Free(page) =>
      var p := Target(page);
      if p / 64 >= |s.table| then Releasing
      else if Bit(s.table[p / 64], p % 64) then Changing(Give, p, Counting(-1, Releasing))
      else Releasing
  }

  function Stored(s: State, i: nat, change: Change, page: nat, word: Word, after: Place): State
    requires i < |s.cpus| && page / 64 < |s.table|
  {
    WordOpsFit(word, page % 64);
    var c := s.cpus[i];
    var word' := if change == Give then ClearBit(word, page % 64) else SetBit(word, page % 64);
    var owned := if change == Take then c.owned + {page} else if change == Give then c.owned - {page} else c.owned;
    State(s.lock, s.table[page / 64 := word'], s.index, s.used,
          if change == Keep then s.reserved + {page} else s.reserved,
          s.cpus[i := c.(place := after, owned := owned)])
  }

  /** The accesses of a place lie in the table. */
  predicate InTable(s: State, place: Place)
    decreases place
  {
    match place
    case Entered(_) => s.index < |s.table|
    case Scanning(_, spot) => spot < |s.table|
    case Changing(_, page, after) => page / 64 < |s.table| && InTable(s, after)
    case Storing(_, page, _, after) => page / 64 < |s.table| && InTable(s, after)
    case Hinting(spot, after) => spot < |s.table| && InTable(s, after)
    case Counting(_, after) => InTable(s, after)
    case CountStoring(_, _, after) => InTable(s, after)
    case _ => true
  }

  /** Any CPU takes its next access, starts a call, or moves the scan position anywhere in the table. */
  ghost predicate Next(s: State, s': State) {
    || (exists i: nat :: Stepped(s, s', i))
    || (exists i: nat, call, once :: Called(s, s', i, call, once))
    || (exists index: nat :: Disturbed(s, s', index))
  }

  ghost predicate Stepped(s: State, s': State, i: nat) {
    i < |s.cpus| && InTable(s, s.cpus[i].place) && s' == Step(s, i)
  }

  ghost predicate Called(s: State, s': State, i: nat, call: Call, once: bool) {
    i < |s.cpus| && MayCall(s, s.cpus[i], call) && s' == Moved(s, i, Acquiring(call, once))
  }

  ghost predicate Disturbed(s: State, s': State, index: nat) {
    index < |s.table| && s' == s.(index := index)
  }

  // ----- What every step keeps

  /** Accesses counted but not yet done by a place: the difference of used_physical_pages to the marked pages. */
  function Pending(place: Place): int {
    match place
    case Hinting(_, after) => Pending(after)
    case Counting(delta, _) => delta
    case CountStoring(delta, _, _) => delta
    case _ => 0
  }

  /** What a CPU inside the lock relies on. */
  ghost predicate Sound(s: State, c: Cpu) {
    match c.place
    case Scanning(start, spot) => Scanned(s.table, start, spot)
    case Changing(change, page, after) => SoundChange(s, c, change, page, after)
    case Storing(change, page, word, after) =>
      SoundChange(s, c, change, page, after) && page / 64 < |s.table| && word == s.table[page / 64]
    case Hinting(_, after) => after.Counting? && after.after.Releasing?
    case Counting(_, after) => after.Releasing? || after.Reserving?
    case CountStoring(_, loaded, after) => loaded == s.used && (after.Releasing? || after.Reserving?)
    case Entered(Free(page)) => MayFree(|s.table|, c.owned, page)
    case _ => true
  }

  /** The words a scan that began at `start` has left behind are full. */
  ghost predicate Scanned(words: seq<Word>, start: nat, spot: nat) {
    start < |words| && forall i | 0 <= i < |words| && ScannedBefore(start, spot, i) :: words[i] == FULL
  }

  ghost predicate SoundChange(s: State, c: Cpu, change: Change, page: nat, after: Place) {
    && (change == Give ==> page in c.owned && after == Counting(-1, Releasing))
    && (change == Take ==> !Marks(s.table, page) && after == Hinting(page / 64, Counting(1, Releasing)))
    && (change == Keep ==> !Marks(s.table, page) && after.Counting? && after.delta == 1 && after.after.Reserving?)
  }

  /** A call not yet inside still may be made. */
  ghost predicate SoundOutside(s: State, c: Cpu) {
    match c.place
    case Acquiring(Free(page), _) => MayFree(|s.table|, c.owned, page)
    case Pausing(Free(page)) => MayFree(|s.table|, c.owned, page)
    case _ => true
  }

  /** The lock is taken exactly while one CPU is inside. */
  ghost predicate Exclusive(s: State) {
    && s.lock <= 1
    && (s.lock == 0 <==> forall i | 0 <= i < |s.cpus| :: !Inside(s.cpus[i]))
    && (forall i, j | 0 <= i < j < |s.cpus| :: !(Inside(s.cpus[i]) && Inside(s.cpus[j])))
  }

  /** Every acquisition is released exactly once. */
  ghost predicate Balanced(s: State) {
    forall i | 0 <= i < |s.cpus| :: s.cpus[i].acquired == s.cpus[i].released + if Inside(s.cpus[i]) then 1 else 0
  }

  /** No page belongs to two CPUs, or to one and to the reserved pages; all of them are marked, no other is. */
  ghost predicate Apart(s: State) {
    && (forall i, j | 0 <= i < j < |s.cpus| :: s.cpus[i].owned !! s.cpus[j].owned)
    && (forall i | 0 <= i < |s.cpus| :: s.cpus[i].owned !! s.reserved)
    && (forall i | 0 <= i < |s.cpus| :: s.cpus[i].owned <= MarkedPages(s.table))
    && s.reserved <= MarkedPages(s.table)
    && (forall page | page in MarkedPages(s.table) :: page in s.reserved || SomeoneOwns(s, page))
  }

  ghost predicate SomeoneOwns(s: State, page: nat) {
    exists i :: 0 <= i < |s.cpus| && page in s.cpus[i].owned
  }

  /** The counter is the number of marked pages, up to the count the CPU inside still has to do. */
  ghost predicate Counted(s: State) {
    && (s.lock == 0 ==> s.used == |MarkedPages(s.table)|)
    && (forall i | 0 <= i < |s.cpus| && Inside(s.cpus[i]) :: s.used + Pending(s.cpus[i].place) ==
          |MarkedPages(s.table)|)
  }

  ghost predicate AllSound(s: State) {
    forall i | 0 <= i < |s.cpus| :: Sound(s, s.cpus[i]) && SoundOutside(s, s.cpus[i]) && InTable(s, s.cpus[i].place)
  }

  ghost predicate Inv(s: State) {
    s.index < |s.table| < 0x1_0000_0000 && Exclusive(s) && Balanced(s) && Apart(s) && Counted(s) && AllSound(s)
  }

  /** No CPU has called yet and the table is empty. */
  ghost predicate Init(s: State) {
    && s.lock == 0 && s.index == 0 < |s.table| < 0x1_0000_0000 && s.used == 0 && s.reserved == {}
    && (forall k | 0 <= k < |s.table| :: s.table[k] == 0)
    && (forall i | 0 <= i < |s.cpus| :: s.cpus[i] == Cpu(Outside, {}, 0, 0))
  }

  lemma InitInv(s: State)
    requires Init(s)
    ensures Inv(s)
  {
    forall page: nat
      ensures page !in MarkedPages(s.table)
    {
      if page / 64 < |s.table| {
        WordBits(s.table[page / 64]);
      }
    }
    assert MarkedPages(s.table) == {};
  }

  lemma {:induction false} RunInv(states: seq<State>, k: nat)
    requires k < |states| && Init(states[0])
    requires forall i | 0 <= i < |states| - 1 :: Next(states[i], states[i + 1])
    ensures Inv(states[k])
  {
    if k == 0 {
      InitInv(states[0]);
    } else {
      RunInv(states, k - 1);
      assert Next(states[k - 1], states[k]);
      NextInv(states[k - 1], states[k]);
    }
  }

  lemma NextInv(s: State, s': State)
    requires Inv(s) && Next(s, s')
    ensures Inv(s')
  {
    if i: nat :| Stepped(s, s', i) {
      StepInv(s, i);
    } else if i: nat, call, once :| Called(s, s', i, call, once) {
      CalledInv(s, i, call, once);
    } else {
      var index: nat :| Disturbed(s, s', index);
      IndexInv(s, index);
    }
  }

  /** The scan position is only a hint: any position in the table will do. */
  lemma IndexInv(s: State, index: nat)
    requires Inv(s) && index < |s.table|
    ensures Inv(s.(index := index))
  {
    var s' := s.(index := index);
    assert Apart(s') by {
      assert forall page :: SomeoneOwns(s, page) ==> SomeoneOwns(s', page);
    }
    forall i | 0 <= i < |s.cpus|
      ensures InTable(s', s'.cpus[i].place) && Sound(s', s'.cpus[i])
    {
      InTableKept(s, s', s.cpus[i].place);
      assert Sound(s, s.cpus[i]);
    }
  }

  /** CPU `i` may go on to a place without entering or leaving: it can rely there on what the place says, and
      has as much left to count. */
  ghost predicate MayMove(s: State, i: nat, place: Place)
    requires i < |s.cpus|
  {
    var c := s.cpus[i].(place := place);
    && Inside(c) == Inside(s.cpus[i]) && Sound(s, c) && SoundOutside(s, c) && InTable(s, place)
    && (Inside(c) ==> Pending(place) == Pending(s.cpus[i].place))
  }

  /** A CPU moves on without entering or leaving, and leaves shared memory as it is. */
  lemma MovedInv(s: State, i: nat, place: Place)
    requires Inv(s) && i < |s.cpus| && MayMove(s, i, place)
    ensures Inv(Moved(s, i, place))
  {
    var s' := Moved(s, i, place);
    assert Inside(s.cpus[i].(place := place)) == Inside(s.cpus[i]);
    assert forall j | 0 <= j < |s.cpus| :: s'.cpus[j].owned == s.cpus[j].owned;
    OwnersKept(s, s');
    SidesKept(s, s');
    CountedKept(s, s');
    MovedSound(s, i, place);
  }

  lemma MovedSound(s: State, i: nat, place: Place)
    requires AllSound(s) && s.index < |s.table| && i < |s.cpus| && MayMove(s, i, place)
    ensures AllSound(Moved(s, i, place))
  {
    var s', c := Moved(s, i, place), s.cpus[i].(place := place);
    assert Sound(s, c) && SoundOutside(s, c);
    InTableKept(s, s', place);
    SoundKept(s, s', i);
  }

  lemma CountedKept(s: State, s': State)
    requires Counted(s) && |s'.cpus| == |s.cpus| && s'.table == s.table && s'.used == s.used && s'.lock == s.lock
    requires forall j | 0 <= j < |s.cpus| ::
               Inside(s'.cpus[j]) == Inside(s.cpus[j])
               && (Inside(s.cpus[j]) ==> Pending(s'.cpus[j].place) == Pending(s.cpus[j].place))
    ensures Counted(s')
  {}

  /** Nobody entered or left. */
  lemma SidesKept(s: State, s': State)
    requires Exclusive(s) && Balanced(s) && |s'.cpus| == |s.cpus| && s'.lock == s.lock
    requires forall j | 0 <= j < |s.cpus| ::
               Inside(s'.cpus[j]) == Inside(s.cpus[j]) && s'.cpus[j].acquired == s.cpus[j].acquired
               && s'.cpus[j].released == s.cpus[j].released
    ensures Exclusive(s') && Balanced(s')
  {
    assert forall i, j | 0 <= i < j < |s.cpus| :: !(Inside(s.cpus[i]) && Inside(s.cpus[j]));
  }

  lemma OwnersKept(s: State, s': State)
    requires Apart(s) && s'.table == s.table && s'.reserved == s.reserved && |s'.cpus| == |s.cpus|
    requires forall j | 0 <= j < |s.cpus| :: s'.cpus[j].owned == s.cpus[j].owned
    ensures Apart(s')
  {
    forall page | page in MarkedPages(s'.table)
      ensures page in s'.reserved || SomeoneOwns(s', page)
    {
      if page !in s.reserved {
        var j :| 0 <= j < |s.cpus| && page in s.cpus[j].owned;
        assert page in s'.cpus[j].owned;
      }
    }
  }

  /** What the other CPUs rely on does not depend on what changed. */
  lemma SoundKept(s: State, s': State, i: nat)
    requires AllSound(s) && i < |s.cpus| == |s'.cpus| && |s'.table| == |s.table| && s'.index < |s.table|
             && s.index < |s.table|
    requires forall j | 0 <= j < |s.cpus| && j != i :: s'.cpus[j] == s.cpus[j]
    requires forall j | 0 <= j < |s.cpus| && j != i ::
               !Inside(s.cpus[j]) || (s'.table == s.table && s'.used == s.used && s'.index == s.index)
    requires Sound(s', s'.cpus[i]) && SoundOutside(s', s'.cpus[i]) && InTable(s', s'.cpus[i].place)
    ensures AllSound(s')
  {
    forall j | 0 <= j < |s'.cpus|
      ensures Sound(s', s'.cpus[j]) && SoundOutside(s', s'.cpus[j]) && InTable(s', s'.cpus[j].place)
    {
      if j != i {
        assert Sound(s, s.cpus[j]) && SoundOutside(s, s.cpus[j]) && InTable(s, s.cpus[j].place);
        if Inside(s.cpus[j]) {
          InTableKept(s, s', s.cpus[j].place);
        }
      }
    }
  }

  lemma {:induction false} InTableKept(s: State, s': State, place: Place)
    requires |s'.table| == |s.table| && s'.index < |s.table|
    requires InTable(s, place)
    ensures InTable(s', place)
    decreases place
  {
    match place
    case Changing(_, _, after) => InTableKept(s, s', after);
    case Storing(_, _, _, after) => InTableKept(s, s', after);
    case Hinting(_, after) => InTableKept(s, s', after);
    case Counting(_, after) => InTableKept(s, s', after);
    case CountStoring(_, _, after) => InTableKept(s, s', after);
    case _ =>
  }

  lemma AcquireInv(s: State, i: nat)
    requires Inv(s) && i < |s.cpus| && s.cpus[i].place.Acquiring? && s.lock == 0
    ensures Inv(Step(s, i))
  {
    var s' := Step(s, i);
    assert forall j | 0 <= j < |s.cpus| :: s'.cpus[j].owned == s.cpus[j].owned;
    assert Inside(s'.cpus[i]);
    OwnersKept(s, s');
    SoundKept(s, s', i);
  }

  lemma ReleaseInv(s: State, i: nat)
    requires Inv(s) && i < |s.cpus| && s.cpus[i].place.Releasing?
    ensures Inv(Step(s, i))
  {
    var s' := Step(s, i);
    assert Inside(s.cpus[i]);
    assert forall j | 0 <= j < |s.cpus| :: s'.cpus[j].owned == s.cpus[j].owned && !Inside(s'.cpus[j]);
    OwnersKept(s, s');
    SoundKept(s, s', i);
  }

  lemma CountInv(s: State, i: nat)
    requires Inv(s) && i < |s.cpus| && s.cpus[i].place.CountStoring?
    ensures Inv(Step(s, i))
  {
    var s' := Step(s, i);
    assert Inside(s.cpus[i]) && Inside(s'.cpus[i]);
    assert forall j | 0 <= j < |s.cpus| ::
        s'.cpus[j].owned == s.cpus[j].owned && Inside(s'.cpus[j]) == Inside(s.cpus[j]);
    OwnersKept(s, s');
    InTableKept(s, s', s'.cpus[i].place);
    SoundKept(s, s', i);
  }

  lemma StepInv(s: State, i: nat)
    requires Inv(s) && i < |s.cpus|
    ensures Inv(Step(s, i))
  {
    if Inside(s.cpus[i]) {
      InsideInv(s, i);
    } else {
      OutsideInv(s, i);
    }
  }

  lemma OutsideInv(s: State, i: nat)
    requires Inv(s) && i < |s.cpus| && !Inside(s.cpus[i])
    ensures Inv(Step(s, i))
  {
    match s.cpus[i].place
    case Outside =>
    case Acquiring(call, once) =>
      if s.lock == 0 {
        AcquireInv(s, i);
      } else {
        FailedInv(s, i, call, once);
      }
    case Pausing(call) => PausedInv(s, i, call);
  }

  lemma PausedInv(s: State, i: nat, call: Call)
    requires Inv(s) && i < |s.cpus| && s.cpus[i].place == Pausing(call)
    ensures Inv(Moved(s, i, if s.lock != 0 then Pausing(call) else Acquiring(call, false)))
  {
    var place := if s.lock != 0 then Pausing(call) else Acquiring(call, false);
    assert SoundOutside(s, s.cpus[i]);
    var c := s.cpus[i].(place := place);
    assert Sound(s, c) && SoundOutside(s, c) && InTable(s, place);
    MovedInv(s, i, place);
  }

  lemma InsideInv(s: State, i: nat)
    requires Inv(s) && i < |s.cpus| && Inside(s.cpus[i])
    ensures Inv(Step(s, i))
  {
    hide SoundOutside;
    assert Sound(s, s.cpus[i]);
    match s.cpus[i].place
    case Entered(call) => EnteredInv(s, i, call);
    case Scanning(start, spot) => ScanningInv(s, i, start, spot);
    case Reserving(page, end) => ReserveInv(s, i, page, end);
    case Changing(_, _, _) => LoadInv(s, i);
    case Storing(change, page, word, after) => StoredInv(s, i);
    case _ => FinishInv(s, i);
  }

  lemma ScanningInv(s: State, i: nat, start: nat, spot: nat)
    requires Inv(s) && i < |s.cpus| && s.cpus[i].place == Scanning(start, spot) && spot < |s.table|
    ensures Inv(Step(s, i))
  {
    hide Inv;
    if s.table[spot] == FULL {
      ScanOnInv(s, i, start, spot);
    } else {
      ScanInv(s, i, start, spot);
    }
  }

  lemma EnteredInv(s: State, i: nat, call: Call)
    requires Inv(s) && i < |s.cpus| && s.cpus[i].place == Entered(call)
    ensures Inv(Moved(s, i, First(s, call)))
  {
    hide Target, Bit;
    var place := First(s, call);
    var c := s.cpus[i].(place := place);
    assert Sound(s, s.cpus[i]);
    assert InTable(s, Counting(-1, Releasing));
    assert Sound(s, c) && SoundOutside(s, c) && InTable(s, place) && Pending(place) == 0;
    MovedInv(s, i, place);
  }

  lemma ScanOnInv(s: State, i: nat, start: nat, spot: nat)
    requires Inv(s) && i < |s.cpus| && s.cpus[i].place == Scanning(start, spot) && spot < |s.table|
             && s.table[spot] == FULL
    ensures Inv(Moved(s, i, Scanning(start, if spot + 1 >= |s.table| then 0 else spot + 1)))
  {
    assert Sound(s, s.cpus[i]);
    var place := Scanning(start, if spot + 1 >= |s.table| then 0 else spot + 1);
    var c := s.cpus[i].(place := place);
    assert Sound(s, c) && SoundOutside(s, c) && InTable(s, place) && Pending(place) == 0;
    MovedInv(s, i, place);
  }

  lemma LoadInv(s: State, i: nat)
    requires Inv(s) && i < |s.cpus| && s.cpus[i].place.Changing?
    ensures Inv(Step(s, i))
  {
    var from := s.cpus[i].place;
    var place := Storing(from.change, from.page, s.table[from.page / 64], from.after);
    assert Sound(s, s.cpus[i]);
    var c := s.cpus[i].(place := place);
    assert SoundChange(s, c, from.change, from.page, from.after);
    assert Sound(s, c) && SoundOutside(s, c) && InTable(s, place) && Pending(place) == 0;
    MovedInv(s, i, place);
  }

  lemma HintInv(s: State, i: nat, spot: nat, after: Place)
    requires Inv(s) && i < |s.cpus| && s.cpus[i].place == Hinting(spot, after) && spot < |s.table|
    ensures Inv(Moved(s.(index := spot), i, after))
  {
    var s' := s.(index := spot);
    IndexInv(s, spot);
    assert Sound(s', s'.cpus[i]) && InTable(s', s'.cpus[i].place);
    var c := s'.cpus[i].(place := after);
    assert Sound(s', c) && SoundOutside(s', c) && InTable(s', after) && Pending(after) == Pending(s'.cpus[i].place);
    MovedInv(s', i, after);
  }

  lemma CountingInv(s: State, i: nat, delta: int, after: Place)
    requires Inv(s) && i < |s.cpus| && s.cpus[i].place == Counting(delta, after)
    ensures Inv(Moved(s, i, CountStoring(delta, s.used, after)))
  {
    var place := CountStoring(delta, s.used, after);
    assert Sound(s, s.cpus[i]) && InTable(s, s.cpus[i].place);
    var c := s.cpus[i].(place := place);
    assert Sound(s, c) && SoundOutside(s, c) && InTable(s, place) && Pending(place) == delta;
    MovedInv(s, i, place);
  }

  lemma CalledInv(s: State, i: nat, call: Call, once: bool)
    requires Inv(s) && i < |s.cpus| && MayCall(s, s.cpus[i], call)
    ensures Inv(Moved(s, i, Acquiring(call, once)))
  {
    var place := Acquiring(call, once);
    var c := s.cpus[i].(place := place);
    assert Sound(s, c) && SoundOutside(s, c) && InTable(s, place);
    MovedInv(s, i, place);
  }

  lemma FailedInv(s: State, i: nat, call: Call, once: bool)
    requires Inv(s) && i < |s.cpus| && s.cpus[i].place == Acquiring(call, once)
    ensures Inv(Moved(s, i, if once then Outside else Pausing(call)))
  {
    var place := if once then Outside else Pausing(call);
    assert SoundOutside(s, s.cpus[i]);
    var c := s.cpus[i].(place := place);
    assert Sound(s, c) && SoundOutside(s, c) && InTable(s, place);
    MovedInv(s, i, place);
  }

  lemma FinishInv(s: State, i: nat)
    requires Inv(s) && i < |s.cpus|
    requires var place := s.cpus[i].place;
             place.Hinting? || place.Counting? || place.CountStoring? || place.Releasing?
    ensures Inv(Step(s, i))
  {
    assert Sound(s, s.cpus[i]);
    match s.cpus[i].place
    case Hinting(spot, after) => HintInv(s, i, spot, after);
    case Counting(delta, after) => CountingInv(s, i, delta, after);
    case CountStoring(delta, loaded, after) => CountInv(s, i);
    case Releasing => ReleaseInv(s, i);
  }

  lemma ScanInv(s: State, i: nat, start: nat, spot: nat)
    requires Inv(s) && i < |s.cpus| && s.cpus[i].place == Scanning(start, spot) && spot < |s.table|
             && s.table[spot] != FULL
    ensures Inv(Moved(s, i, Changing(Take, spot * 64 + LowestClear(s.table[spot]),
                                     Hinting(spot, Counting(1, Releasing)))))
  {
    hide Bit;
    var page := spot * 64 + LowestClear(s.table[spot]);
    var place := Changing(Take, page, Hinting(spot, Counting(1, Releasing)));
    ScanFinds(s, spot);
    assert InTable(s, Hinting(spot, Counting(1, Releasing)));
    var c := s.cpus[i].(place := place);
    assert SoundChange(s, c, Take, page, Hinting(spot, Counting(1, Releasing)));
    assert Sound(s, c) && SoundOutside(s, c) && InTable(s, place) && Pending(place) == 0;
    MovedInv(s, i, place);
  }

  /** The page of the lowest clear bit is not marked. */
  lemma ScanFinds(s: State, spot: nat)
    requires spot < |s.table| && s.table[spot] != FULL
    ensures var page := spot * 64 + LowestClear(s.table[spot]);
            && page / 64 == spot && !Marks(s.table, page)
            && forall k: nat | k < LowestClear(s.table[spot]) :: Bit(s.table[spot], k)
  {
    FullIsOnes();
    LowestClearIs(s.table[spot], 64);
    var page := spot * 64 + LowestClear(s.table[spot]);
    assert page / 64 == spot && page % 64 == LowestClear(s.table[spot]);
  }

  lemma ReserveInv(s: State, i: nat, page: nat, end: nat)
    requires Inv(s) && i < |s.cpus| && s.cpus[i].place == Reserving(page, end)
    ensures Inv(Step(s, i))
  {
    hide Inv;
    if page >= end || page >= |s.table| {
      ReserveEnds(s, i, page, end);
    } else if Bit(s.table[page / 64], page % 64) {
      ReserveSkips(s, i, page, end);
    } else {
      ReserveKeeps(s, i, page, end);
    }
  }

  lemma ReserveEnds(s: State, i: nat, page: nat, end: nat)
    requires Inv(s) && i < |s.cpus| && s.cpus[i].place == Reserving(page, end)
    ensures Inv(Moved(s, i, Releasing))
  {
    var c := s.cpus[i].(place := Releasing);
    assert Sound(s, s.cpus[i]);
    assert Sound(s, c) && SoundOutside(s, c) && InTable(s, Releasing);
    MovedInv(s, i, Releasing);
  }

  lemma ReserveSkips(s: State, i: nat, page: nat, end: nat)
    requires Inv(s) && i < |s.cpus| && s.cpus[i].place == Reserving(page, end) && page < end
    ensures Inv(Moved(s, i, Reserving(page + 1, end)))
  {
    var c := s.cpus[i].(place := Reserving(page + 1, end));
    assert Sound(s, s.cpus[i]);
    assert Sound(s, c) && SoundOutside(s, c) && InTable(s, c.place);
    MovedInv(s, i, Reserving(page + 1, end));
  }

  lemma ReserveKeeps(s: State, i: nat, page: nat, end: nat)
    requires Inv(s) && i < |s.cpus| && s.cpus[i].place == Reserving(page, end) && page < end && page < |s.table|
    requires !Bit(s.table[page / 64], page % 64)
    ensures Inv(Moved(s, i, Changing(Keep, page, Counting(1, Reserving(page + 1, end)))))
  {
    var after := Counting(1, Reserving(page + 1, end));
    var place := Changing(Keep, page, after);
    var c := s.cpus[i].(place := place);
    assert Sound(s, s.cpus[i]);
    assert InTable(s, after) && InTable(s, place);
    assert SoundChange(s, c, Keep, page, after);
    assert Sound(s, c) && SoundOutside(s, c) && Pending(place) == 0;
    MovedInv(s, i, place);
  }

  lemma StoredInv(s: State, i: nat)
    requires Inv(s) && i < |s.cpus| && s.cpus[i].place.Storing? && s.cpus[i].place.page / 64 < |s.table|
    ensures var place := s.cpus[i].place;
            Inv(Stored(s, i, place.change, place.page, place.word, place.after))
  {
    hide Marks;
    var place := s.cpus[i].place;
    var s' := Stored(s, i, place.change, place.page, place.word, place.after);
    assert Sound(s, s.cpus[i]) && Inside(s.cpus[i]) && Inside(s'.cpus[i]);
    SidesKept(s, s');
    StoredApart(s, s', i);
    StoredCounted(s, s', i);
    InTableKept(s, s', s'.cpus[i].place);
    SoundKept(s, s', i);
  }

  /** The store changes the number of marked pages by one, which is what is left to count. */
  lemma StoredCounted(s: State, s': State, i: nat)
    requires Inv(s) && i < |s.cpus| && s.cpus[i].place.Storing? && s.cpus[i].place.page / 64 < |s.table|
    requires var place := s.cpus[i].place;
             s' == Stored(s, i, place.change, place.page, place.word, place.after)
    ensures Counted(s')
  {
    hide MarkedPages;
    var c, page := s.cpus[i], s.cpus[i].place.page;
    assert Sound(s, c) && Inside(c) && s.lock != 0;
    StoredMarks(s, c, page);
    PendingAfter(s, c, c.place.change, page, c.place.after);
    assert |MarkedPages(s'.table)| == s.used + Pending(c.place.after);
    forall j | 0 <= j < |s.cpus| && j != i
      ensures !Inside(s'.cpus[j])
    {
      assert s'.cpus[j] == s.cpus[j];
    }
  }

  lemma PendingAfter(s: State, c: Cpu, change: Change, page: nat, after: Place)
    requires SoundChange(s, c, change, page, after)
    ensures Pending(after) == if change == Give then -1 else 1
  {}

  lemma StoredMarks(s: State, c: Cpu, page: nat)
    requires c.place.Storing? && page == c.place.page && page / 64 < |s.table| && Sound(s, c)
             && c.owned <= MarkedPages(s.table)
    ensures page in MarkedPages(s.table) <==> c.place.change == Give
    ensures c.place.word == s.table[page / 64]
    ensures SetBit(c.place.word, page % 64) <= FULL && ClearBit(c.place.word, page % 64) <= FULL
    ensures MarkedPages(s.table[page / 64 := SetBit(c.place.word, page % 64)]) == MarkedPages(s.table) + {page}
    ensures MarkedPages(s.table[page / 64 := ClearBit(c.place.word, page % 64)]) == MarkedPages(s.table) - {page}
  {
    MarkOne(s.table, page);
    ClearOne(s.table, page);
    assert page in MarkedPages(s.table) <==> Marks(s.table, page);
  }

  lemma StoredApart(s: State, s': State, i: nat)
    requires Apart(s) && AllSound(s) && i < |s.cpus| && s.cpus[i].place.Storing?
             && s.cpus[i].place.page / 64 < |s.table|
    requires var place := s.cpus[i].place;
             s' == Stored(s, i, place.change, place.page, place.word, place.after)
    ensures Apart(s')
  {
    var c, page := s.cpus[i], s.cpus[i].place.page;
    assert Sound(s, c);
    MarkOne(s.table, page);
    ClearOne(s.table, page);
    assert forall j | 0 <= j < |s.cpus| && j != i :: s'.cpus[j].owned == s.cpus[j].owned;
    assert page in MarkedPages(s.table) <==> Marks(s.table, page);
    match c.place.change
    case Take => TakeApart(s, s', i, page);
    case Give => GiveApart(s, s', i, page);
    case Keep => KeepApart(s, s', page);
  }

  lemma TakeApart(s: State, s': State, i: nat, page: nat)
    requires Apart(s) && i < |s.cpus| == |s'.cpus| && page !in MarkedPages(s.table)
    requires forall j | 0 <= j < |s.cpus| && j != i :: s'.cpus[j].owned == s.cpus[j].owned
    requires s'.cpus[i].owned == s.cpus[i].owned + {page} && s'.reserved == s.reserved
    requires MarkedPages(s'.table) == MarkedPages(s.table) + {page}
    ensures Apart(s')
  {
    forall j, k | 0 <= j < k < |s.cpus|
      ensures s'.cpus[j].owned !! s'.cpus[k].owned
    {
      assert s.cpus[j].owned !! s.cpus[k].owned;
    }
    OwnersFound(s, s', page);
  }

  lemma GiveApart(s: State, s': State, i: nat, page: nat)
    requires Apart(s) && i < |s.cpus| == |s'.cpus| && page in s.cpus[i].owned
    requires forall j | 0 <= j < |s.cpus| && j != i :: s'.cpus[j].owned == s.cpus[j].owned
    requires s'.cpus[i].owned == s.cpus[i].owned - {page} && s'.reserved == s.reserved
    requires MarkedPages(s'.table) == MarkedPages(s.table) - {page}
    ensures Apart(s')
  {
    forall j | 0 <= j < |s.cpus|
      ensures page !in s'.cpus[j].owned
    {
      assert j < i ==> s.cpus[j].owned !! s.cpus[i].owned;
      assert j > i ==> s.cpus[i].owned !! s.cpus[j].owned;
    }
    forall j, k | 0 <= j < k < |s.cpus|
      ensures s'.cpus[j].owned !! s'.cpus[k].owned
    {
      assert s.cpus[j].owned !! s.cpus[k].owned;
    }
    OwnersFound(s, s', page);
  }

  lemma KeepApart(s: State, s': State, page: nat)
    requires Apart(s) && |s.cpus| == |s'.cpus| && page !in MarkedPages(s.table)
    requires forall j | 0 <= j < |s.cpus| :: s'.cpus[j].owned == s.cpus[j].owned
    requires s'.reserved == s.reserved + {page}
    requires MarkedPages(s'.table) == MarkedPages(s.table) + {page}
    ensures Apart(s')
  {
    OwnersFound(s, s', page);
  }

  /** Every marked page but the one just changed has the owner it had. */
  lemma OwnersFound(s: State, s': State, page: nat)
    requires Apart(s) && |s.cpus| == |s'.cpus|
    requires forall j, p | 0 <= j < |s.cpus| && p in s.cpus[j].owned && p != page :: p in s'.cpus[j].owned
    requires s.reserved <= s'.reserved
    ensures forall p | p in MarkedPages(s.table) && p != page :: p in s'.reserved || SomeoneOwns(s', p)
  {
    forall p | p in MarkedPages(s.table) && p != page
      ensures p in s'.reserved || SomeoneOwns(s', p)
    {
      if p !in s.reserved {
        var j :| 0 <= j < |s.cpus| && p in s.cpus[j].owned;
        assert p in s'.cpus[j].owned;
      }
    }
  }

  // ----- Exactly which frees are safe

  /** What a free does to shared memory, up to its count: CPU `i` is inside and so runs alone. */
  function FreeDone(s: State, i: nat, page: nat): State
    requires i < |s.cpus|
  {
    var p := Target(page);
    if p / 64 < |s.table| && Bit(s.table[p / 64], p % 64) then
      Stored(s, i, Give, p, s.table[p / 64], Counting(-1, Releasing))
    else Moved(s, i, Releasing)
  }

  /** It is what one or three accesses of that CPU do. */
  lemma FreeSteps(s: State, i: nat, page: nat)
    requires i < |s.cpus| && s.cpus[i].place == Entered(Free(page)) && s.index < |s.table|
    ensures var s1 := Step(s, i);
            if !s1.cpus[i].place.Changing? then FreeDone(s, i, page) == s1
            else
              && InTable(s1, s1.cpus[i].place)
              && var s2 := Step(s1, i);
                 InTable(s2, s2.cpus[i].place) && FreeDone(s, i, page) == Step(s2, i)
  {
    var s1, after := Step(s, i), Counting(-1, Releasing);
    assert InTable(s1, after);
    if s1.cpus[i].place.Changing? {
      assert InTable(s1, s1.cpus[i].place);
      var s2 := Step(s1, i);
      assert InTable(s2, after) && InTable(s2, s2.cpus[i].place);
      assert FreeDone(s, i, page).cpus == Step(s2, i).cpus;
    }
  }

  /** A free leaves every page with the owner it had, or with none if it was the caller's, if and only if the page it
      acts on is the caller's, lies past the table, or is free anyway. */
  lemma FreeKeeps(s: State, i: nat, page: nat)
    requires Apart(s) && i < |s.cpus|
    ensures Apart(FreeDone(s, i, page)) <==>
            MayFree(|s.table|, s.cpus[i].owned, page) || !Marks(s.table, Target(page))
  {
    var p, s' := Target(page), FreeDone(s, i, page);
    assert forall j | 0 <= j < |s.cpus| && j != i :: s'.cpus[j].owned == s.cpus[j].owned;
    if Marks(s.table, p) {
      WordOpsFit(s.table[p / 64], p % 64);
      ClearOne(s.table, p);
      assert p in MarkedPages(s.table);
      if p in s.cpus[i].owned {
        GiveApart(s, s', i, p);
      } else if p !in s.reserved {
        var j :| 0 <= j < |s.cpus| && p in s.cpus[j].owned;
        assert p in s'.cpus[j].owned;
      }
    } else {
      assert s'.cpus[i].owned == s.cpus[i].owned;
      OwnersKept(s, s');
    }
  }

  /** Whatever the other CPUs have done by the time CPU `i` is inside: its own pages are still its own. */
  ghost predicate Meanwhile(s: State, s': State, i: nat) {
    && i < |s.cpus| == |s'.cpus| && s'.cpus[i] == s.cpus[i] && |s'.table| == |s.table| && Apart(s')
  }

  /** Main result. What a caller can check before the call decides: a free is safe in whatever state it comes to act if
      and only if the page it acts on is the caller's own or lies past the table. */
  lemma FreeIsSafe(s: State, i: nat, page: nat)
    requires Apart(s) && i < |s.cpus|
    ensures MayFree(|s.table|, s.cpus[i].owned, page) <==>
            forall s': State | Meanwhile(s, s', i) :: Apart(FreeDone(s', i, page))
  {
    if MayFree(|s.table|, s.cpus[i].owned, page) {
      forall s': State | Meanwhile(s, s', i)
        ensures Apart(FreeDone(s', i, page))
      {
        FreeKeeps(s', i, page);
      }
    } else {
      var s' := Held(s, Target(page));
      HeldApart(s, Target(page));
      assert Meanwhile(s, s', i);
      FreeKeeps(s', i, page);
    }
  }

  /** The state in which a page that was free has been reserved. */
  function Held(s: State, p: nat): State
    requires p / 64 < |s.table|
  {
    WordOpsFit(s.table[p / 64], p % 64);
    if Marks(s.table, p) then s
    else s.(table := s.table[p / 64 := SetBit(s.table[p / 64], p % 64)], reserved := s.reserved + {p})
  }

  lemma HeldApart(s: State, p: nat)
    requires Apart(s) && p / 64 < |s.table|
    ensures Apart(Held(s, p)) && Marks(Held(s, p).table, p)
  {
    if !Marks(s.table, p) {
      WordOpsFit(s.table[p / 64], p % 64);
      MarkOne(s.table, p);
      KeepApart(s, Held(s, p), p);
      assert p in MarkedPages(Held(s, p).table);
    }
  }

  /** CPU 0 owns page 1 and CPU 1 frees the address 2^50 + 0x1000: page 1 is free while CPU 0 still owns it. */
  lemma FreeExample()
    ensures var s := State(1, [2], 0, 1, {}, [Cpu(Outside, {1}, 1, 1), Cpu(Entered(Free(0x40_0000_0001)), {}, 1, 0)]);
            && Target(0x40_0000_0001) == 1 && !MayFree(|s.table|, s.cpus[1].owned, 0x40_0000_0001)
            && Apart(s) && FreeDone(s, 1, 0x40_0000_0001).table == [0]
            && 1 in FreeDone(s, 1, 0x40_0000_0001).cpus[0].owned && !Apart(FreeDone(s, 1, 0x40_0000_0001))
  {
    var s := State(1, [2], 0, 1, {}, [Cpu(Outside, {1}, 1, 1), Cpu(Entered(Free(0x40_0000_0001)), {}, 1, 0)]);
    assert Bit(2, 1) == Bit(1, 0);
    assert ClearBit(2, 1) == ClearBit(1, 0) * 2;
    OneMarked();
    OneOwned(s);
    FreeKeeps(s, 1, 0x40_0000_0001);
  }

  lemma OneOwned(s: State)
    requires s.table == [2] && s.reserved == {} && |s.cpus| == 2 && s.cpus[0].owned == {1} && s.cpus[1].owned == {}
    ensures Apart(s)
  {
    OneMarked();
    assert 1 in s.cpus[0].owned;
    assert SomeoneOwns(s, 1);
    assert forall page | page in MarkedPages(s.table) :: page == 1;
  }

  /** Before that call the state is one the invariant allows. */
  lemma FreeExampleBefore()
    ensures Inv(State(0, [2], 0, 1, {}, [Cpu(Outside, {1}, 1, 1), Cpu(Outside, {}, 0, 0)]))
  {
    var s := State(0, [2], 0, 1, {}, [Cpu(Outside, {1}, 1, 1), Cpu(Outside, {}, 0, 0)]);
    OneMarked();
    OneOwned(s);
  }

  lemma OneMarked()
    ensures MarkedPages([2]) == {1}
  {
    forall page: nat
      ensures Marks([2], page) <==> page == 1
    {
      if page / 64 == 0 {
        assert page % 64 == page;
        if page > 1 {
          NoHighBit(page);
        }
        assert Bit(2, 1) == Bit(1, 0);
      }
    }
    assert forall page :: page in MarkedPages([2]) <==> page == 1;
  }

  lemma {:induction false} NoHighBit(k: nat)
    requires k > 1
    ensures !Bit(2, k)
  {
    assert Bit(2, k) == Bit(1, k - 1) == Bit(0, k - 2);
    NoBit(k - 2);
  }

  lemma {:induction false} NoBit(k: nat)
    ensures !Bit(0, k)
  {
    if k > 0 {
      NoBit(k - 1);
    }
  }

  // ----- What that means for every run

  /** Main result. In every state of every run, whatever the interleaving and whoever moves the scan position:
      at most one CPU is inside the lock, each CPU has released exactly as often as it acquired, no page belongs
      to two CPUs or to one and the reserved pages, and while nobody is inside the counter is the number of marked
      pages, which are exactly the owned and the reserved ones. */
  lemma RunIsSafe(states: seq<State>, k: nat, i: nat, j: nat, page: nat)
    requires k < |states| && Init(states[0])
    requires forall n | 0 <= n < |states| - 1 :: Next(states[n], states[n + 1])
    requires i < |states[k].cpus| && j < |states[k].cpus|
    ensures i != j ==> !(Inside(states[k].cpus[i]) && Inside(states[k].cpus[j]))
    ensures states[k].cpus[i].acquired == states[k].cpus[i].released + if Inside(states[k].cpus[i]) then 1 else 0
    ensures i != j ==> !(page in states[k].cpus[i].owned && page in states[k].cpus[j].owned)
    ensures !(page in states[k].cpus[i].owned && page in states[k].reserved)
    ensures page in MarkedPages(states[k].table) <==> page in states[k].reserved || SomeoneOwns(states[k], page)
    ensures states[k].lock == 0 ==> states[k].used == |MarkedPages(states[k].table)|
  {
    RunInv(states, k);
    assert i < j ==> states[k].cpus[i].owned !! states[k].cpus[j].owned;
    assert j < i ==> states[k].cpus[j].owned !! states[k].cpus[i].owned;
    if SomeoneOwns(states[k], page) {
      var n :| 0 <= n < |states[k].cpus| && page in states[k].cpus[n].owned;
      assert states[k].cpus[n].owned <= MarkedPages(states[k].table);
    }
  }

  /** The page an allocation takes belonged to nobody, and belongs to the CPU that took it after the store. */
  lemma TakenWasFree(s: State, i: nat, j: nat)
    requires Inv(s) && i < |s.cpus| && j < |s.cpus| && s.cpus[i].place.Storing? && s.cpus[i].place.change == Take
    ensures var page := s.cpus[i].place.page;
            && page !in s.cpus[j].owned && page !in s.reserved
            && (page in Step(s, i).cpus[j].owned <==> j == i)
  {
    var page := s.cpus[i].place.page;
    assert Sound(s, s.cpus[i]);
    assert page !in MarkedPages(s.table);
    assert s.cpus[j].owned <= MarkedPages(s.table);
  }

  /** Whatever the others do meanwhile, an allocation chooses the lowest free page of the first word that is not
      full, in circular order from the position it read, and will store that word's position for the next. */
  lemma TakesFirstFree(s: State, i: nat)
    requires Inv(s) && i < |s.cpus| && s.cpus[i].place.Scanning?
    requires s.cpus[i].place.spot < |s.table| && s.table[s.cpus[i].place.spot] != FULL
    ensures var place, next := s.cpus[i].place, Step(s, i).cpus[i].place;
            && Scanned(s.table, place.start, place.spot)
            && next.Changing? && next.change == Take && next.page / 64 == place.spot
            && next.after.Hinting? && next.after.spot == place.spot
            && next.page !in MarkedPages(s.table)
            && forall page: nat | place.spot * 64 <= page < next.page :: page in MarkedPages(s.table)
  {
    var spot := s.cpus[i].place.spot;
    assert Sound(s, s.cpus[i]);
    ScanFinds(s, spot);
    forall page: nat | spot * 64 <= page < spot * 64 + LowestClear(s.table[spot])
      ensures page in MarkedPages(s.table)
    {
      assert page / 64 == spot && page % 64 == page - spot * 64;
    }
  }
}
