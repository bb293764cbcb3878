/** What a whole call of the physical page allocator does, in any run of the CPUs of `SpinLock`: it acts as if it were
    one step, between the compare-exchange that takes the lock and the store that releases it. */
module LockedCalls {
  import opened PhysicalMemory
  import opened SpinLock

  ghost predicate Running(states: seq<State>) {
    states != [] && Init(states[0]) && forall n | 0 <= n < |states| - 1 :: Next(states[n], states[n + 1])
  }

  /** The CPU made a call in step `m` and is outside again for the first time in state `k`. */
  ghost predicate Returns(states: seq<State>, m: nat, k: nat, i: nat, call: Call, once: bool) {
    && m + 1 < k < |states| && Called(states[m], states[m + 1], i, call, once)
    && (forall n | m < n <= k :: i < |states[n].cpus|)
    && (forall n | m < n < k :: !states[n].cpus[i].place.Outside?) && states[k].cpus[i].place.Outside?
  }

  // ----- Trying

  /** The CPU has not got in yet: nothing of it has changed since the call. */
  ghost predicate Trying(c0: Cpu, c: Cpu, call: Call, once: bool) {
    && (c.place == Acquiring(call, once) || (!once && c.place == Pausing(call)))
    && c.owned == c0.owned && c.acquired == c0.acquired && c.released == c0.released
  }

  /** Either the CPU itself moves, or nothing about it changes; while it is inside, the table does not either. */
  lemma MovesAlone(s: State, s': State, i: nat)
    requires Inv(s) && Next(s, s') && i < |s.cpus| && !s.cpus[i].place.Outside?
    ensures |s'.cpus| == |s.cpus| && |s'.table| == |s.table|
    ensures Stepped(s, s', i) || s'.cpus[i] == s.cpus[i]
    ensures Inside(s.cpus[i]) ==> Stepped(s, s', i) || s'.table == s.table
  {
    if j: nat :| Stepped(s, s', j) {
      StepTouches(s, j);
      if j != i && Inside(s.cpus[i]) {
        assert !Inside(s.cpus[j]);
      }
    }
  }

  lemma TriesOn(s: State, i: nat, c0: Cpu, call: Call, once: bool)
    requires i < |s.cpus| && Trying(c0, s.cpus[i], call, once) && InTable(s, s.cpus[i].place)
    ensures var c := Step(s, i).cpus[i];
            if s.cpus[i].place.Acquiring? && s.lock == 0 then
              c == c0.(place := Entered(call), acquired := c0.acquired + 1)
            else if s.cpus[i].place.Acquiring? && once then c == c0.(place := Outside)
            else Trying(c0, c, call, once)
  {}

  /** The compare-exchange that decides the call. */
  lemma {:induction false} Attempts(states: seq<State>, n: nat, k: nat, i: nat, c0: Cpu, call: Call, once: bool)
      returns (j: nat)
    requires Running(states) && n < k < |states| && i < |states[n].cpus| && Trying(c0, states[n].cpus[i], call, once)
    requires forall p | n <= p <= k :: i < |states[p].cpus|
    requires (forall p | n <= p < k :: !states[p].cpus[i].place.Outside?) && states[k].cpus[i].place.Outside?
    ensures n <= j < k && Trying(c0, states[j].cpus[i], call, once) && states[j].cpus[i].place.Acquiring?
    ensures Stepped(states[j], states[j + 1], i)
    ensures if states[j].lock == 0 then
              states[j + 1].cpus[i] == c0.(place := Entered(call), acquired := c0.acquired + 1)
            else once && k == j + 1 && states[k].cpus[i] == c0.(place := Outside)
    decreases k - n
  {
    hide Inv, Step;
    RunInv(states, n);
    assert Next(states[n], states[n + 1]);
    MovesAlone(states[n], states[n + 1], i);
    if Stepped(states[n], states[n + 1], i) {
      TriesOn(states[n], i, c0, call, once);
    }
    if Trying(c0, states[n + 1].cpus[i], call, once) {
      j := Attempts(states, n + 1, k, i, c0, call, once);
    } else {
      j := n;
    }
  }

  // ----- Inside

  /** The page is the lowest free one of the first word that is not full, in circular order from word `from`. */
  ghost predicate FirstFree(words: seq<Word>, from: nat, page: nat) {
    && from < |words| && page / 64 < |words| && page !in MarkedPages(words)
    && (forall w | 0 <= w < |words| && ScannedBefore(from, page / 64, w) :: words[w] == FULL)
    && forall p: nat | page / 64 * 64 <= p < page :: p in MarkedPages(words)
  }

  /** What a whole call does to the marked pages and to the caller's own: an allocation takes the first free page, a
      free gives the page it acts on back, a reservation marks the pages of its range its loop reaches. */
  ghost predicate Effect(call: Call, words: seq<Word>, from: nat, marked': set<nat>, owned: set<nat>, owned': set<nat>)
  {
    var marked := MarkedPages(words);
    match call
    case Allocate =>
      exists page: nat :: FirstFree(words, from, page) && marked' == marked + {page} && owned' == owned + {page}
    case Free(page) => marked' == marked - {Target(page)} && owned' == owned - {Target(page)}
    case Reserve(first, end) => marked' == marked + PageRun(first, end, |words|) && owned' == owned
  }

  ghost predicate Finished(e: State, s: State, i: nat, call: Call, from: nat)
    requires i < |e.cpus| && i < |s.cpus|
  {
    Effect(call, e.table, from, MarkedPages(s.table), e.cpus[i].owned, s.cpus[i].owned)
  }

  ghost predicate Untouched(e: State, s: State, i: nat)
    requires i < |e.cpus| && i < |s.cpus|
  {
    s.table == e.table && s.cpus[i].owned == e.cpus[i].owned
  }

  /** A reservation has done the pages before `page`. */
  ghost predicate ReservedTo(e: State, s: State, i: nat, call: Call, page: nat, end: nat)
    requires i < |e.cpus| && i < |s.cpus|
  {
    && call.Reserve? && end == call.end && call.first <= page && (page == call.first || page <= end)
    && MarkedPages(s.table) == MarkedPages(e.table) + PageRun(call.first, page, |e.table|)
    && s.cpus[i].owned == e.cpus[i].owned
  }

  /** The store a CPU is about to do. */
  ghost predicate WillChange(e: State, s: State, i: nat, call: Call, from: nat, change: Change, page: nat,
                             after: Place)
    requires i < |e.cpus| && i < |s.cpus|
  {
    match change
    case Take =>
      && call.Allocate? && Untouched(e, s, i) && FirstFree(e.table, from, page)
      && after == Hinting(page / 64, Counting(1, Releasing))
    case Give => call.Free? && page == Target(call.page) && Untouched(e, s, i) && after == Counting(-1, Releasing)
    case Keep =>
      && call.Reserve? && page < |e.table| && page < call.end
      && after == Counting(1, Reserving(page + 1, call.end)) && ReservedTo(e, s, i, call, page, call.end)
  }

  /** After a count the call is done, or a reservation goes on. */
  ghost predicate AfterCount(e: State, s: State, i: nat, call: Call, from: nat, after: Place)
    requires i < |e.cpus| && i < |s.cpus|
  {
    match after
    case Releasing => Finished(e, s, i, call, from)
    case Reserving(page, end) => ReservedTo(e, s, i, call, page, end)
    case _ => false
  }

  /** How far the call has come since the CPU entered in state `e`. */
  ghost predicate Doing(e: State, s: State, i: nat, call: Call, from: nat)
    requires i < |e.cpus| && i < |s.cpus|
  {
    match s.cpus[i].place
    case Entered(c) => c == call && Untouched(e, s, i)
    case Scanning(start, _) => call.Allocate? && Untouched(e, s, i) && start == from
    case Reserving(page, end) => ReservedTo(e, s, i, call, page, end)
    case Changing(change, page, after) => WillChange(e, s, i, call, from, change, page, after)
    case Storing(change, page, _, after) => WillChange(e, s, i, call, from, change, page, after)
    case Hinting(_, after) => after == Counting(1, Releasing) && Finished(e, s, i, call, from)
    case Counting(_, after) => AfterCount(e, s, i, call, from, after)
    case CountStoring(_, _, after) => AfterCount(e, s, i, call, from, after)
    case Releasing => Finished(e, s, i, call, from)
    case _ => false
  }

  ghost predicate Inward(e: State, s: State, i: nat, call: Call, from: nat) {
    && i < |e.cpus| && i < |s.cpus| && |s.table| == |e.table| && Doing(e, s, i, call, from)
    && s.cpus[i].acquired == e.cpus[i].acquired && s.cpus[i].released == e.cpus[i].released
  }

  lemma OwnMarked(s: State, i: nat)
    requires Inv(s) && i < |s.cpus|
    ensures s.cpus[i].owned <= MarkedPages(s.table) && Sound(s, s.cpus[i]) && InTable(s, s.cpus[i].place)
  {}

  /** The scan position is read. */
  lemma EnteredGoesOn(e: State, s: State, i: nat, call: Call, from: nat)
    requires Inv(s) && Inward(e, s, i, call, from) && s.cpus[i].place.Entered?
    ensures Inward(e, Step(s, i), i, call, s.index)
  {
    hide Bit, Inv, Target, PageRun;
    OwnMarked(s, i);
    var marked, s' := MarkedPages(s.table), Step(s, i);
    match call
    case Allocate =>
    case Reserve(first, end) =>
      PageRunStep(first, first, first, |e.table|);
      assert ReservedTo(e, s', i, call, first, end);
    case Free(page) =>
      if !s'.cpus[i].place.Changing? {
        assert Target(page) !in marked;
        assert marked - {Target(page)} == marked && s.cpus[i].owned - {Target(page)} == s.cpus[i].owned;
        assert Finished(e, s', i, call, s.index);
      }
  }

  lemma ReservingGoesOn(e: State, s: State, i: nat, call: Call, from: nat)
    requires Inv(s) && Inward(e, s, i, call, from) && s.cpus[i].place.Reserving?
    ensures Inward(e, Step(s, i), i, call, from)
  {
    hide Bit, Inv;
    var page, end := s.cpus[i].place.page, s.cpus[i].place.end;
    if page >= end || page >= |s.table| {
      PageRunStep(call.first, page, if page <= end then end else page, |e.table|);
      assert page > end ==> page == call.first;
      PageRunStep(call.first, call.first, call.first, |e.table|);
      assert Finished(e, Step(s, i), i, call, from);
    } else if Bit(s.table[page / 64], page % 64) {
      PageRunStep(call.first, page, end, |e.table|);
      assert page in MarkedPages(s.table);
    }
  }

  lemma StoringGoesOn(e: State, s: State, i: nat, call: Call, from: nat)
    requires Inv(s) && Inward(e, s, i, call, from) && s.cpus[i].place.Storing? && InTable(s, s.cpus[i].place)
    ensures Inward(e, Step(s, i), i, call, from)
  {
    hide Bit, MarkedPages, SetBit, ClearBit, Target, Inv, PageRun;
    var c, page, s' := s.cpus[i], s.cpus[i].place.page, Step(s, i);
    OwnMarked(s, i);
    StoredMarks(s, c, page);
    match c.place.change
    case Take => assert page !in MarkedPages(e.table) && Finished(e, s', i, call, from);
    case Give => assert Finished(e, s', i, call, from);
    case Keep =>
      PageRunStep(call.first, page, call.end, |e.table|);
      assert ReservedTo(e, s', i, call, page + 1, call.end);
  }

  lemma GoesOn(e: State, s: State, i: nat, call: Call, from: nat)
    requires Inv(s) && Inward(e, s, i, call, from) && !s.cpus[i].place.Releasing? && InTable(s, s.cpus[i].place)
    ensures Inward(e, Step(s, i), i, call, if s.cpus[i].place.Entered? then s.index else from)
  {
    match s.cpus[i].place
    case Entered(_) => EnteredGoesOn(e, s, i, call, from);
    case Reserving(_, _) => ReservingGoesOn(e, s, i, call, from);
    case Storing(_, _, _, _) => StoringGoesOn(e, s, i, call, from);
    case Scanning(_, spot) => ScanningGoesOn(e, s, i, call, from, spot);
    case Changing(_, _, _) => LoadGoesOn(e, s, i, call, from);
    case _ => CountGoesOn(e, s, i, call, from);
  }

  lemma ScanningGoesOn(e: State, s: State, i: nat, call: Call, from: nat, spot: nat)
    requires Inv(s) && Inward(e, s, i, call, from) && s.cpus[i].place.Scanning? && s.cpus[i].place.spot == spot
             && spot < |s.table|
    ensures Inward(e, Step(s, i), i, call, from)
  {
    hide LowestClear;
    if s.table[spot] != FULL {
      TakesFirstFree(s, i);
      assert FirstFree(e.table, from, Step(s, i).cpus[i].place.page);
    }
  }

  lemma LoadGoesOn(e: State, s: State, i: nat, call: Call, from: nat)
    requires Inward(e, s, i, call, from) && s.cpus[i].place.Changing? && InTable(s, s.cpus[i].place)
    ensures Inward(e, Step(s, i), i, call, from)
  {
    hide MarkedPages, PageRun, Target, FirstFree;
  }

  lemma CountGoesOn(e: State, s: State, i: nat, call: Call, from: nat)
    requires Inward(e, s, i, call, from) && InTable(s, s.cpus[i].place)
    requires var place := s.cpus[i].place;
             place.Hinting? || place.Counting? || place.CountStoring?
    ensures Inward(e, Step(s, i), i, call, from)
  {
    hide MarkedPages, Effect;
  }

  /** What the others do meanwhile leaves the table alone. */
  lemma StaysInward(e: State, s: State, s': State, i: nat, call: Call, from: nat)
    requires Inward(e, s, i, call, from) && s'.table == s.table && i < |s'.cpus| && s'.cpus[i] == s.cpus[i]
    ensures Inward(e, s', i, call, from)
  {
    hide MarkedPages, PageRun, Target;
  }

  lemma InwardInside(e: State, s: State, i: nat, call: Call, from: nat)
    requires Inward(e, s, i, call, from)
    ensures Inside(s.cpus[i])
  {
    hide Finished, Untouched, ReservedTo, WillChange, AfterCount;
  }

  /** From entering to the release. `from` is the scan position the CPU has read, or will read in state `p`. */
  lemma {:induction false} Finishes(states: seq<State>, e: State, n: nat, k: nat, i: nat, call: Call, from: nat)
      returns (p: nat, from': nat)
    requires Running(states) && n < k < |states| && Inward(e, states[n], i, call, from)
    requires forall p | n <= p <= k :: i < |states[p].cpus|
    requires (forall p | n <= p < k :: !states[p].cpus[i].place.Outside?) && states[k].cpus[i].place.Outside?
    ensures Finished(e, states[k], i, call, from') && states[k].lock == 0
    ensures states[k].cpus[i].acquired == e.cpus[i].acquired
    ensures states[k].cpus[i].released == e.cpus[i].released + 1
    ensures if states[n].cpus[i].place.Entered? then
              && n <= p < k && states[p].cpus[i].place == Entered(call) && !states[p + 1].cpus[i].place.Entered?
              && from' == states[p].index
            else from' == from
    decreases k - n
  {
    hide Inv, Step, Finished, Untouched, ReservedTo, WillChange, AfterCount;
    var s, s' := states[n], states[n + 1];
    RunInv(states, n);
    assert Next(s, s');
    InwardInside(e, s, i, call, from);
    MovesAlone(s, s', i);
    if Stepped(s, s', i) && s.cpus[i].place.Releasing? {
      Leaves(e, s, i, call, from);
      p, from' := n, from;
    } else {
      var next := if Stepped(s, s', i) && s.cpus[i].place.Entered? then s.index else from;
      if Stepped(s, s', i) {
        GoesOn(e, s, i, call, from);
        EnteredOnce(e, s, i, call, from);
      } else {
        StaysInward(e, s, s', i, call, from);
      }
      InwardInside(e, s', i, call, next);
      p, from' := Finishes(states, e, n + 1, k, i, call, next);
      if Stepped(s, s', i) && s.cpus[i].place.Entered? {
        p := n;
      }
    }
  }

  lemma EnteredOnce(e: State, s: State, i: nat, call: Call, from: nat)
    requires Inward(e, s, i, call, from) && InTable(s, s.cpus[i].place)
    ensures !Step(s, i).cpus[i].place.Entered?
  {
    hide MarkedPages, PageRun, Target, FirstFree;
  }

  lemma Leaves(e: State, s: State, i: nat, call: Call, from: nat)
    requires Inward(e, s, i, call, from) && s.cpus[i].place.Releasing?
    ensures var s' := Step(s, i);
            && s'.cpus[i].place.Outside? && Finished(e, s', i, call, from) && s'.lock == 0
            && s'.cpus[i].acquired == e.cpus[i].acquired && s'.cpus[i].released == e.cpus[i].released + 1
  {}

  // ----- Whole calls

  lemma TargetIs(page: nat)
    ensures Target(page) == page % 0x40_0000_0000
  {}

  /** Main result. In any run, whatever the other CPUs do meanwhile, a call that returns was decided by one
      compare-exchange, its last. If that found the lock free, the caller has acquired and released the lock exactly
      once more, and from the compare-exchange to the release the marked pages and its own changed by exactly what the
      call is for: the first free page from the scan position it read is taken, the page the free acts on is given
      back, or the pages of the reservation below the word count are marked. If it found the lock taken, the call was
      one that does not wait, and it changed nothing; a call that waits never returns without the lock. */
  lemma CallIsAtomic(states: seq<State>, m: nat, k: nat, i: nat, call: Call, once: bool) returns (j: nat, p: nat)
    requires Running(states) && Returns(states, m, k, i, call, once)
    ensures m < j < k && i < |states[m].cpus|
    ensures states[j].cpus[i].place.Acquiring? && !states[j + 1].cpus[i].place.Acquiring?
    ensures !once ==> states[j].lock == 0
    ensures states[j].lock != 0 ==> k == j + 1 && states[k].cpus[i] == states[m].cpus[i]
    ensures states[j].lock == 0 ==>
              var c0, c := states[m].cpus[i], states[k].cpus[i];
              var marked0, marked := MarkedPages(states[j].table), MarkedPages(states[k].table);
              && c.acquired == c0.acquired + 1 && c.released == c0.released + 1
              && match call
                 case Allocate =>
                   && j < p < k && states[p].cpus[i].place.Entered? && !states[p + 1].cpus[i].place.Entered?
                   && exists page: nat :: FirstFree(states[j].table, states[p].index, page)
                                          && marked == marked0 + {page} && c.owned == c0.owned + {page}
                 case Free(page) =>
                   && marked == marked0 - {page % 0x40_0000_0000} && c.owned == c0.owned - {page % 0x40_0000_0000}
                 case Reserve(first, end) =>
                   && c.owned == c0.owned
                   && forall page :: page in marked <==>
                                     page in marked0 || (first <= page < end && page < |states[j].table|)
  {
    hide Inv, Step, MarkedPages, Target;
    var c0 := states[m].cpus[i];
    p := k;
    j := Attempts(states, m + 1, k, i, c0, call, once);
    if states[j].lock == 0 {
      Enters(states[j], i);
      assert Inward(states[j + 1], states[j + 1], i, call, 0);
      var from;
      p, from := Finishes(states, states[j + 1], j + 1, k, i, call, 0);
      if call.Free? {
        TargetIs(call.page);
      }
    }
  }

  lemma Enters(s: State, i: nat)
    requires i < |s.cpus| && s.cpus[i].place.Acquiring? && s.lock == 0
    ensures Step(s, i).table == s.table
  {}

  // ----- Nobody gets stuck behind a free lock

  /** The state after CPU `i` alone has made `n` accesses. */
  ghost function Alone(s: State, i: nat, n: nat): (s': State)
    requires Inv(s) && i < |s.cpus|
    ensures Inv(s') && |s'.cpus| == |s.cpus|
    decreases n
  {
    if n == 0 then s else
    StepInv(s, i);
    Alone(Step(s, i), i, n - 1)
  }

  /** The CPU has to find a free page yet. */
  predicate Looks(place: Place) {
    match place
    case Acquiring(call, _) => call.Allocate?
    case Pausing(call) => call.Allocate?
    case Entered(call) => call.Allocate?
    case Scanning(_, _) => true
    case _ => false
  }

  function RangeLeft(first: nat, end: nat): nat {
    if first < end then 6 * (end - first) + 2 else 2
  }

  function CallLeft(call: Call, length: nat): nat {
    match call
    case Allocate => 9 + length
    case Free(_) => 7
    case Reserve(first, end) => 1 + RangeLeft(first, end)
  }

  /** A bound on the accesses left to a CPU that runs alone; word `w` is not full. */
  function Left(place: Place, length: nat, w: nat): nat {
    match place
    case Outside => 0
    case Acquiring(call, _) => 1 + CallLeft(call, length)
    case Pausing(call) => 2 + CallLeft(call, length)
    case Entered(call) => CallLeft(call, length)
    case Scanning(_, spot) => if spot <= w then 7 + w - spot else if spot < length then 7 + w + length - spot else 7
    case Reserving(page, end) => RangeLeft(page, end)
    case Changing(_, _, after) => 2 + Left(after, length, w)
    case Storing(_, _, _, after) => 1 + Left(after, length, w)
    case Hinting(_, after) => 1 + Left(after, length, w)
    case Counting(_, after) => 2 + Left(after, length, w)
    case CountStoring(_, _, after) => 1 + Left(after, length, w)
    case Releasing => 1
  }

  lemma LeftOf(length: nat, w: nat, spot: nat, page: nat, end: nat)
    ensures Left(Counting(-1, Releasing), length, w) == Left(Counting(1, Releasing), length, w) == 3
    ensures Left(Hinting(spot, Counting(1, Releasing)), length, w) == 4
    ensures Left(Counting(1, Reserving(page, end)), length, w) == 2 + RangeLeft(page, end)
  {
    assert Left(Releasing, length, w) == 1;
    assert Left(Counting(1, Releasing), length, w) == 3;
  }

  /** The CPU is in a call, and nothing is in its way: the lock is its own or free, and if it looks for a page there is
      one. */
  ghost predicate Unhindered(s: State, i: nat, w: nat) {
    && i < |s.cpus| && !s.cpus[i].place.Outside? && (Inside(s.cpus[i]) || s.lock == 0)
    && w < |s.table| && (Looks(s.cpus[i].place) ==> s.table[w] != FULL)
  }

  /** The access brought the CPU nearer to its release, or was it. */
  ghost predicate Nearer(s: State, s': State, i: nat, w: nat)
    requires i < |s.cpus| && i < |s'.cpus|
  {
    && Left(s'.cpus[i].place, |s'.table|, w) < Left(s.cpus[i].place, |s.table|, w)
    && if s.cpus[i].place.Releasing? then s'.cpus[i].place.Outside? && s'.cpus[i].released == s.cpus[i].released + 1
       else Unhindered(s', i, w) && s'.cpus[i].released == s.cpus[i].released
  }

  lemma StepNears(s: State, i: nat, w: nat)
    requires Unhindered(s, i, w) && Sound(s, s.cpus[i]) && InTable(s, s.cpus[i].place)
    ensures Nearer(s, Step(s, i), i, w)
  {
    match s.cpus[i].place
    case Entered(_) => EnteredNears(s, i, w);
    case Scanning(_, spot) => ScanningNears(s, i, w, spot);
    case Reserving(page, end) => LeftOf(|s.table|, w, 0, page + 1, end);
    case Outside => assert false;
    case _ => OthersNear(s, i, w);
  }

  lemma EnteredNears(s: State, i: nat, w: nat)
    requires Unhindered(s, i, w) && s.cpus[i].place.Entered? && InTable(s, s.cpus[i].place)
    ensures Nearer(s, Step(s, i), i, w)
  {
    hide Bit, Target;
    LeftOf(|s.table|, w, 0, 0, 0);
  }

  lemma ScanningNears(s: State, i: nat, w: nat, spot: nat)
    requires Unhindered(s, i, w) && s.cpus[i].place.Scanning? && s.cpus[i].place.spot == spot < |s.table|
    ensures Nearer(s, Step(s, i), i, w)
  {
    hide LowestClear;
    LeftOf(|s.table|, w, spot, 0, 0);
  }

  lemma OthersNear(s: State, i: nat, w: nat)
    requires Unhindered(s, i, w) && Sound(s, s.cpus[i]) && InTable(s, s.cpus[i].place)
    requires var place := s.cpus[i].place;
             !place.Entered? && !place.Scanning? && !place.Reserving?
    ensures Nearer(s, Step(s, i), i, w)
  {
    hide Bit, MarkedPages, SetBit, ClearBit;
  }

  /** Main result. Nobody gets stuck behind a free lock: a CPU that is inside, or waits while the lock is free, and runs
      alone from there, releases the lock after finitely many accesses, unless it looks for a page and there is none. */
  lemma {:induction false} AloneReturns(s: State, i: nat, w: nat) returns (n: nat)
    requires Inv(s) && Unhindered(s, i, w)
    ensures Alone(s, i, n).cpus[i].place.Outside?
    ensures Alone(s, i, n).cpus[i].released == s.cpus[i].released + 1
    decreases Left(s.cpus[i].place, |s.table|, w)
  {
    hide Inv, Left, Step, Unhindered, Alone;
    AloneStep(s, i, w);
    if s.cpus[i].place.Releasing? {
      AloneUnfolds(s, i, 0);
      n := 1;
    } else {
      var n' := AloneReturns(Step(s, i), i, w);
      AloneUnfolds(s, i, n');
      n := n' + 1;
    }
  }

  lemma AloneStep(s: State, i: nat, w: nat)
    requires Inv(s) && Unhindered(s, i, w)
    ensures i < |s.cpus| && InTable(s, s.cpus[i].place) && Inv(Step(s, i)) && |Step(s, i).cpus| == |s.cpus|
    ensures Nearer(s, Step(s, i), i, w)
  {
    OwnMarked(s, i);
    StepInv(s, i);
    hide Inv, Sound;
    StepTouches(s, i);
    StepNears(s, i, w);
  }

  lemma AloneUnfolds(s: State, i: nat, n: nat)
    requires Inv(s) && i < |s.cpus| && InTable(s, s.cpus[i].place) && Inv(Step(s, i))
    ensures |Step(s, i).cpus| == |s.cpus|
    ensures Alone(s, i, n + 1) == Alone(Step(s, i), i, n)
    ensures Alone(Step(s, i), i, 0) == Step(s, i)
  {}
}
