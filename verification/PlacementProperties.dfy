/** Any run of calls on any number of address spaces, each with its own cursor (src/common/paging.c:637-906): calls that
    place a mapping where a cursor finds room, calls at addresses below a cursor, and new address spaces. */
module PlacementProperties {
  import opened Wrappers
  import opened PageTables
  import opened AddressSpace
  import opened PagingCursor
  import opened PagingProperties
  import opened Placement
  import opened UnmapRun

  /** What calls see of the machine: the tables, for each address space the slot its cursor is ready for, and the frames
      handed out. */
  datatype World = World(t: Tables, cursors: map<nat, nat>, frames: set<nat>)

  /** What a successful call at a cursor returns: pages first, first+1, ... lying on the given frames. */
  datatype Grant = Grant(first: nat, frames: seq<nat>)

  /** A call was refused and did nothing; or placed a mapping of free frames, or of physical memory the caller chose; or
      mapped or unmapped at an address and touched no page of its space outside lo .. hi-1; or a new address space was
      set up, with pages on free frames below its cursor. */
  datatype Event =
    | Refused
    | Maps(root: nat, grant: Grant)
    | MapsGiven(root: nat, grant: Grant)
    | Below(root: nat, lo: nat, hi: nat)
    | Opens(root: nat, n: nat, grant: Grant)

  ghost predicate UnmappedFrom(t: Tables, root: nat, n: nat) {
    forall page: nat | n <= page :: Lookup(t, root, page) == None
  }

  /** Nothing is mapped at or above any cursor. */
  ghost predicate AllClear(w: World) {
    forall root | root in w.cursors :: UnmappedFrom(w.t, root, w.cursors[root])
  }

  /** Only pages lo .. hi-1 of one address space may have moved. */
  ghost predicate OnlyMoves(w0: World, w1: World, root: nat, lo: nat, hi: nat) {
    forall r: nat, page: nat | r in w0.cursors && !(r == root && lo <= page < hi) ::
      Lookup(w1.t, r, page) == Lookup(w0.t, r, page)
  }

  ghost predicate Lies(t: Tables, root: nat, g: Grant) {
    forall i | 0 <= i < |g.frames| :: Lookup(t, root, g.first + i) == Some(g.frames[i])
  }

  /** A successful call at the cursor of a space: the pages lie where the grant says, at or above the slot the cursor
      was ready for, nothing else changed, and the cursor is ready for the slot after them. */
  ghost predicate Call(w0: World, w1: World, root: nat, g: Grant) {
    var end := g.first + |g.frames|;
    && root in w0.cursors && w0.cursors[root] <= g.first && end < Slots(1)
    && w1.cursors == w0.cursors[root := end]
    && Lies(w1.t, root, g) && OnlyMoves(w0, w1, root, g.first, end)
  }

  /** A call at an address below the cursor. */
  ghost predicate CallBelow(w0: World, w1: World, root: nat, lo: nat, hi: nat) {
    && root in w0.cursors && hi <= w0.cursors[root] && w1.cursors == w0.cursors
    && w0.frames <= w1.frames && OnlyMoves(w0, w1, root, lo, hi)
  }

  /** A new address space, its cursor ready for slot `n`. */
  ghost predicate Opening(w0: World, w1: World, root: nat, n: nat, g: Grant) {
    && root !in w0.cursors && g.first + |g.frames| <= n < Slots(1)
    && w1.cursors == w0.cursors[root := n]
    && UnmappedFrom(w1.t, root, n) && Lies(w1.t, root, g) && OnlyMoves(w0, w1, root, 0, 0)
  }

  ghost predicate Step(w0: World, w1: World, event: Event) {
    match event
    case Refused => w1 == w0
    case Maps(root, g) => Call(w0, w1, root, g) && Granted(w0.frames, w1.frames, g.frames)
    case MapsGiven(root, g) => Call(w0, w1, root, g) && w1.frames == w0.frames
    case Below(root, lo, hi) => CallBelow(w0, w1, root, lo, hi)
    case Opens(root, n, g) => Opening(w0, w1, root, n, g) && NewFrames(w0.frames, w1.frames, g.frames)
  }

  /** Calls one after the other. */
  ghost predicate Run(states: seq<World>, events: seq<Event>) {
    && |states| == |events| + 1 && AllClear(states[0])
    && forall i | 0 <= i < |events| :: Step(states[i], states[i + 1], events[i])
  }

  /** What a call was granted, and in which address space. */
  predicate Grants(event: Event, root: nat, g: Grant) {
    match event
    case Maps(r, h) => r == root && h == g
    case MapsGiven(r, h) => r == root && h == g
    case Opens(r, _, h) => r == root && h == g
    case _ => false
  }

  /** Its frames were free ones. */
  predicate FromFree(event: Event) {
    event.Maps? || event.Opens?
  }

  /** No call from the i-th to the k-th mapped or unmapped this page at its address. */
  ghost predicate Untouched(events: seq<Event>, i: nat, k: nat, root: nat, page: nat)
    requires k <= |events|
  {
    forall j | i <= j < k && events[j].Below? && events[j].root == root :: !(events[j].lo <= page < events[j].hi)
  }

  // ----- The calls of the pager are such steps

  /** The contract of a successful paging_map makes it one. */
  lemma MapIsCall(t0: Tables, nodes0: map<nat, Node>, t1: Tables, nodes1: map<nat, Node>, roots: set<nat>, root: nat,
                  table0: seq<nat>, index0: seq<nat>, table1: seq<nat>, index1: seq<nat>,
                  cursors: map<nat, nat>, s: nat, pages: nat, frames0: set<nat>, frames1: set<nat>, given: seq<nat>,
                  flags: Flags)
    requires root in cursors && cursors.Keys <= roots
    requires Tree(t0, nodes0, roots) && Tree(t1, nodes1, roots)
    requires Ready(t0, root, table0, index0, cursors[root]) && cursors[root] <= s && Granted(frames0, frames1, given)
    requires MappedAtSpot(t0, t1, roots, root, s, pages, FrameLeaves(given, flags), table1, index1, Succeeds)
    ensures Step(World(t0, cursors, frames0), World(t1, cursors[root := s + pages], frames1),
                 Maps(root, Grant(s, given)))
    ensures Ready(t1, root, table1, index1, s + pages)
  {
    GrantedFramed(frames0, frames1, given);
    FrameLeavesAre(given, flags);
    LeavesCall(t0, nodes0, t1, roots, root, table0, index0, table1, index1, cursors, s, pages,
               FrameLeaves(given, flags), given, frames0, frames1);
  }

  lemma GrantedFramed(frames0: set<nat>, frames1: set<nat>, given: seq<nat>)
    requires Granted(frames0, frames1, given)
    ensures forall f | f in given :: Framed(f)
  {}

  /** The physical pages from an address on, as 52-bit addresses. */
  function PhysicalPages(address: nat, count: nat): (pages: seq<nat>)
    ensures |pages| == count && forall i | 0 <= i < count :: pages[i] == (address + i * PAGE) % 0x10_0000_0000_0000
  {
    seq(count, i requires 0 <= i < count => (address + i * PAGE) % 0x10_0000_0000_0000)
  }

  /** The contract of a successful paging_map_physical makes it one, with page `i` of the range on page `i` of the
      physical range. */
  lemma MapPhysicalIsCall(t0: Tables, nodes0: map<nat, Node>, t1: Tables, nodes1: map<nat, Node>, roots: set<nat>,
                          root: nat, table0: seq<nat>, index0: seq<nat>, table1: seq<nat>, index1: seq<nat>,
                          cursors: map<nat, nat>, s: nat, pages: nat, frames: set<nat>, address: nat, flags: Flags)
    requires root in cursors && cursors.Keys <= roots
    requires Tree(t0, nodes0, roots) && Tree(t1, nodes1, roots)
    requires Ready(t0, root, table0, index0, cursors[root]) && cursors[root] <= s && address % PAGE == 0
    requires MappedAtSpot(t0, t1, roots, root, s, pages, RunLeaves(address, 1, flags, pages), table1, index1, Succeeds)
    ensures Step(World(t0, cursors, frames), World(t1, cursors[root := s + pages], frames),
                 MapsGiven(root, Grant(s, PhysicalPages(address, pages))))
    ensures Ready(t1, root, table1, index1, s + pages)
  {
    PhysicalLeaves(address, flags, pages);
    RunLeavesAreLeaves(address, 1, flags, pages);
    LeavesCall(t0, nodes0, t1, roots, root, table0, index0, table1, index1, cursors, s, pages,
               RunLeaves(address, 1, flags, pages), PhysicalPages(address, pages), frames, frames);
  }

  /** One refused for a misaligned address has opened tables and moved the cursor, and maps nothing. */
  lemma MisalignedIsCall(t0: Tables, nodes0: map<nat, Node>, t1: Tables, roots: set<nat>, root: nat,
                         table0: seq<nat>, index0: seq<nat>, table1: seq<nat>, index1: seq<nat>,
                         cursors: map<nat, nat>, s: nat, frames: set<nat>)
    requires root in cursors && cursors.Keys <= roots && Tree(t0, nodes0, roots)
    requires Ready(t0, root, table0, index0, cursors[root]) && cursors[root] <= s
    requires Spotted(t0, t1, roots, root, s, table1, index1)
    ensures Step(World(t0, cursors, frames), World(t1, cursors[root := s], frames), MapsGiven(root, Grant(s, [])))
    ensures Ready(t1, root, table1, index1, s)
  {
    AtBound(t1, table1, index1, 1, s);
    LeavesCall(t0, nodes0, t1, roots, root, table0, index0, table1, index1, cursors, s, 0, [], [], frames, frames);
  }

  lemma PhysicalLeaves(address: nat, flags: Flags, count: nat)
    requires address % PAGE == 0
    ensures LeavesOn(RunLeaves(address, 1, flags, count), PhysicalPages(address, count))
  {
    forall i | 0 <= i < count
      ensures PhysicalBits(RunLeaves(address, 1, flags, count)[i].address) == PhysicalPages(address, count)[i]
    {
      LeafFrame(address, flags, count, i, 0);
    }
  }

  /** The leaves lead to the frames. */
  ghost predicate LeavesOn(leaves: seq<Entry>, frames: seq<nat>) {
    |leaves| == |frames| && forall i | 0 <= i < |frames| :: PhysicalBits(leaves[i].address) == frames[i]
  }

  lemma LeavesCall(t0: Tables, nodes0: map<nat, Node>, t1: Tables, roots: set<nat>, root: nat,
                   table0: seq<nat>, index0: seq<nat>, table1: seq<nat>, index1: seq<nat>,
                   cursors: map<nat, nat>, s: nat, pages: nat, leaves: seq<Entry>, given: seq<nat>,
                   frames0: set<nat>, frames1: set<nat>)
    requires root in cursors && cursors.Keys <= roots && Tree(t0, nodes0, roots)
    requires Ready(t0, root, table0, index0, cursors[root]) && cursors[root] <= s
    requires LeavesOn(leaves, given) && forall e | e in leaves :: Leaf(e, 1)
    requires |leaves| == pages && s + pages < Slots(1) && Filled(t0, t1, roots, root, 1, s, leaves)
    ensures Call(World(t0, cursors, frames0), World(t1, cursors[root := s + pages], frames1), root, Grant(s, given))
  {
    hide Lookup, Ready;
    ReadyUnmapped(t0, nodes0, roots, root, table0, index0, cursors[root]);
    FilledIsRemapped(t0, t1, roots, root, 1, s, leaves);
    CallRemaps(t0, t1, roots, root, s, leaves, given);
    forall r: nat, page: nat | r in cursors && !(r == root && s <= page < s + |given|)
      ensures Lookup(t1, r, page) == Lookup(t0, r, page)
    {
      assert Lookup(t1, r, page) == AfterCall(t0, root, Grant(s, given), r, page);
    }
    forall i | 0 <= i < |given|
      ensures Lookup(t1, root, s + i) == Some(given[i])
    {
      assert Lookup(t1, root, s + i) == AfterCall(t0, root, Grant(s, given), root, s + i);
    }
  }

  lemma ReadyUnmapped(t: Tables, nodes: map<nat, Node>, roots: set<nat>, root: nat, table: seq<nat>, index: seq<nat>,
                      n: nat)
    requires Tree(t, nodes, roots) && root in roots && Ready(t, root, table, index, n)
    ensures UnmappedFrom(t, root, n)
    ensures forall m: nat | n <= m :: NoLeafAbove(t, root, 1, m)
  {
    forall m: nat | n <= m
      ensures Lookup(t, root, m) == None && NoLeafAbove(t, root, 1, m)
    {
      ReadyUnused(t, nodes, roots, root, table, index, n, m);
    }
  }

  ghost function AfterCall(t: Tables, root: nat, g: Grant, r: nat, page: nat): Option<nat> {
    if r == root && g.first <= page < g.first + |g.frames| then Some(g.frames[page - g.first]) else Lookup(t, r, page)
  }

  lemma CallRemaps(t0: Tables, t1: Tables, roots: set<nat>, root: nat, s: nat, leaves: seq<Entry>, given: seq<nat>)
    requires Remapped(t0, t1, roots, root, 1, s, leaves) && LeavesOn(leaves, given)
    requires forall e | e in leaves :: Leaf(e, 1)
    ensures forall r: nat, page: nat | r in roots ::
              Lookup(t1, r, page) == AfterCall(t0, root, Grant(s, given), r, page)
  {
    forall r: nat, page: nat | r in roots
      ensures Lookup(t1, r, page) == AfterCall(t0, root, Grant(s, given), r, page)
    {
      assert Lookup(t1, r, page) == RemappedTo(t0, root, 1, s, leaves, r, page);
      LeafRun(t0, root, s, leaves, r, page);
    }
  }

  /** A cursor is ready for the same slot when no slot of its address space changed: calls in other spaces leave it
      alone. */
  lemma SameReady(t0: Tables, t1: Tables, nodes1: map<nat, Node>, roots: set<nat>, same: set<nat>, root: nat,
                  table: seq<nat>, index: seq<nat>, n: nat)
    requires root in roots && root in same && SameSpaces(t0, t1, same) && Tree(t1, nodes1, roots)
    requires Ready(t0, root, table, index, n)
    ensures Ready(t1, root, table, index, n)
  {
    if At(t0, table, index, 1, n) {
      SameAt(t0, t1, nodes1, roots, same, table, index, 1, n);
    } else {
      assert Slot(t1, root, 4, Up(n, 3)) == Slot(t0, root, 4, Up(n, 3));
      forall m: nat | index[3] <= m < Up(n, 3)
        ensures Slot(t1, root, 4, m) != ZERO
      {
        assert Slot(t1, root, 4, m) == Slot(t0, root, 4, m);
      }
    }
    assert Slot(t1, root, 1, n) == Slot(t0, root, 1, n);
    forall j: nat, m: nat | 1 <= j <= 4 && Up(n, j - 1) < m
      ensures Slot(t1, root, j, m) == ZERO
    {
      assert Slot(t1, root, j, m) == Slot(t0, root, j, m);
    }
  }

  lemma {:induction false} SameAt(t0: Tables, t1: Tables, nodes1: map<nat, Node>, roots: set<nat>, same: set<nat>,
                                  table: seq<nat>, index: seq<nat>, level: nat, n: nat)
    requires At(t0, table, index, level, n) && table[3] in roots && table[3] in same
    requires SameSpaces(t0, t1, same) && Tree(t1, nodes1, roots)
    ensures At(t1, table, index, level, n)
    decreases 4 - level
  {
    if level < 4 {
      SameAt(t0, t1, nodes1, roots, same, table, index, level + 1, n / 512);
      assert Slot(t1, table[3], level + 1, n / 512) == Slot(t0, table[3], level + 1, n / 512);
      SlotHome(t1, nodes1, roots, table[3], level + 1, n / 512);
    }
  }

  /** The first page of a slot of a level. */
  function FirstPage(level: nat, slot: nat): nat
    requires 1 <= level <= 3
  {
    slot * Span(level)
  }

  /** A run at addresses below the cursor, mapped or cleared, leaves the cursor ready for the same slot, when the slot
      after the run lies below it too. */
  lemma BelowKeepsReady(t0: Tables, t1: Tables, nodes1: map<nat, Node>, roots: set<nat>, root: nat, level: nat, s: nat,
                        leaves: seq<Entry>, table: seq<nat>, index: seq<nat>, n: nat)
    requires root in roots && Tree(t1, nodes1, roots) && 1 <= level <= 3
    requires Ready(t0, root, table, index, n) && Filled(t0, t1, roots, root, level, s, leaves)
    requires FirstPage(level, s + |leaves|) < n
    ensures Ready(t1, root, table, index, n)
  {
    var end := s + |leaves|;
    BelowUp(level, end, n);
    ClearStays(t0, t1, roots, root, level, s, leaves, n);
    if At(t0, table, index, 1, n) {
      AtBelow(t0, t1, nodes1, roots, level, s, leaves, table, index, 1, n);
    } else {
      UnplacedStays(t0, t1, nodes1, roots, level, s, leaves, table, index, Up(n, 3));
      assert FilledAt(t0, t1, root, level, s, leaves, root, 4, Up(n, 3));
    }
  }

  lemma BelowUp(level: nat, end: nat, n: nat)
    requires 1 <= level <= 3 && FirstPage(level, end) < n
    ensures end <= Up(n, level - 1)
    ensures n == First(4, Up(n, 3)) ==> Up(end, 4 - level) < Up(n, 3)
  {
    UpDigits(n);
    UpDigits(end);
    FirstIs(0, 0, Up(n, 3));
  }

  lemma {:induction false} UpUp(n: nat, a: nat, b: nat)
    ensures Up(Up(n, a), b) == Up(n, a + b)
    decreases a
  {
    if a > 0 {
      UpUp(n / 512, a - 1, b);
    }
  }

  lemma ClearStays(t0: Tables, t1: Tables, roots: set<nat>, root: nat, level: nat, s: nat, leaves: seq<Entry>, n: nat)
    requires root in roots && 1 <= level <= 3 && ClearFrom(t0, root, n)
    requires Filled(t0, t1, roots, root, level, s, leaves) && s + |leaves| <= Up(n, level - 1)
    ensures ClearFrom(t1, root, n)
  {
    assert FilledAt(t0, t1, root, level, s, leaves, root, 1, n);
    forall j: nat, m: nat | 1 <= j <= 4 && Up(n, j - 1) < m
      ensures Slot(t1, root, j, m) == ZERO
    {
      assert FilledAt(t0, t1, root, level, s, leaves, root, j, m);
      if j > level {
        UpUp(n, level - 1, j - level);
        UpMonotone(s + |leaves|, Up(n, level - 1), j - level);
      } else {
        UpUp(n, j - 1, level - j);
        UpMonotone(Up(n, j - 1), m, level - j);
      }
    }
  }

  lemma {:induction false} AtBelow(t0: Tables, t1: Tables, nodes1: map<nat, Node>, roots: set<nat>, level: nat, s: nat,
                                   leaves: seq<Entry>, table: seq<nat>, index: seq<nat>, top: nat, n: nat)
    requires At(t0, table, index, top, n) && table[3] in roots && Tree(t1, nodes1, roots)
    requires Filled(t0, t1, roots, table[3], level, s, leaves)
    requires top <= level ==> s + |leaves| <= Up(n, level - top)
    ensures At(t1, table, index, top, n)
    decreases 4 - top
  {
    if top < 4 {
      AtBelow(t0, t1, nodes1, roots, level, s, leaves, table, index, top + 1, n / 512);
      assert FilledAt(t0, t1, table[3], level, s, leaves, table[3], top + 1, n / 512);
      SlotHome(t1, nodes1, roots, table[3], top + 1, n / 512);
    }
  }

  lemma UnplacedStays(t0: Tables, t1: Tables, nodes1: map<nat, Node>, roots: set<nat>, level: nat, s: nat,
                      leaves: seq<Entry>, table: seq<nat>, index: seq<nat>, k: nat)
    requires 1 <= level <= 3 && Unplaced(t0, table, index, k) && table[3] in roots && Tree(t1, nodes1, roots)
    requires Filled(t0, t1, roots, table[3], level, s, leaves)
    ensures Unplaced(t1, table, index, k)
  {
    forall m: nat | index[3] <= m < k
      ensures Slot(t1, table[3], 4, m) != ZERO
    {
      assert FilledAt(t0, t1, table[3], level, s, leaves, table[3], 4, m);
    }
  }

  /** A run of leaves or zeros at addresses below the cursor. */
  lemma FilledIsBelow(t0: Tables, nodes0: map<nat, Node>, t1: Tables, nodes1: map<nat, Node>, roots: set<nat>,
                      root: nat, level: nat, s: nat, leaves: seq<Entry>, table: seq<nat>, index: seq<nat>,
                      cursors: map<nat, nat>, frames0: set<nat>, frames1: set<nat>)
    requires root in cursors && cursors.Keys <= roots
    requires Tree(t0, nodes0, roots) && Tree(t1, nodes1, roots) && 1 <= level <= 3
    requires Ready(t0, root, table, index, cursors[root]) && Filled(t0, t1, roots, root, level, s, leaves)
    requires FirstPage(level, s + |leaves|) < cursors[root] && frames0 <= frames1
    ensures Step(World(t0, cursors, frames0), World(t1, cursors, frames1),
                 Below(root, FirstPage(level, s), FirstPage(level, s + |leaves|)))
    ensures Ready(t1, root, table, index, cursors[root])
  {
    hide Lookup, Ready;
    BelowKeepsReady(t0, t1, nodes1, roots, root, level, s, leaves, table, index, cursors[root]);
    forall r: nat, page: nat | r in cursors
                               && !(r == root && FirstPage(level, s) <= page < FirstPage(level, s + |leaves|))
      ensures Lookup(t1, r, page) == Lookup(t0, r, page)
    {
      InSlots(level, s, |leaves|, page);
      FilledOutside(t0, t1, roots, root, level, s, leaves, r, page);
    }
  }

  /** The contract of mapping at an address makes a call that misplaces no table such a step. */
  lemma MapAtIsBelow(t0: Tables, nodes0: map<nat, Node>, t1: Tables, nodes1: map<nat, Node>, roots: set<nat>, root: nat,
                     address: nat, bytes: nat, flags: Flags, refused: bool, leaves: seq<Entry>, r: Outcome,
                     table: seq<nat>, index: seq<nat>, cursors: map<nat, nat>, frames0: set<nat>, frames1: set<nat>)
    requires root in cursors && cursors.Keys <= roots
    requires Tree(t0, nodes0, roots) && Tree(t1, nodes1, roots) && frames0 <= frames1
    requires Ready(t0, root, table, index, cursors[root]) && !Misplaced(t0, root, PageOf(address), flags)
    requires LeavesMapped(t0, t1, roots, root, address, bytes, flags, refused, leaves, r) && !r.Spins? && !r.Strays?
    requires var level := TargetLevel(t0, root, PageOf(address), flags);
             FirstPage(level, SlotOf(PageOf(address), level) + if r.Refuses? then 0 else |leaves|) < cursors[root]
    ensures var level := TargetLevel(t0, root, PageOf(address), flags);
            var s := SlotOf(PageOf(address), level);
            Step(World(t0, cursors, frames0), World(t1, cursors, frames1),
                 Below(root, FirstPage(level, s), FirstPage(level, s + if r.Refuses? then 0 else |leaves|)))
    ensures Ready(t1, root, table, index, cursors[root])
  {
    hide Lookup, Tree, Ready;
    var level := TargetLevel(t0, root, PageOf(address), flags);
    FilledIsBelow(t0, nodes0, t1, nodes1, roots, root, level, SlotOf(PageOf(address), level),
                  if r.Refuses? then [] else leaves, table, index, cursors, frames0, frames1);
  }

  /** And so does the contract of unmapping, however the call ends. */
  lemma UnmapIsBelow(t0: Tables, nodes0: map<nat, Node>, t1: Tables, nodes1: map<nat, Node>, roots: set<nat>, root: nat,
                     address: nat, bytes: nat, count: nat, r: Unmapping,
                     table: seq<nat>, index: seq<nat>, cursors: map<nat, nat>, frames: set<nat>)
    requires root in cursors && cursors.Keys <= roots
    requires Tree(t0, nodes0, roots) && Tree(t1, nodes1, roots)
    requires Ready(t0, root, table, index, cursors[root])
    requires UnmapResult(t0, t1, roots, root, address, bytes, count, r)
    requires var level := LeafLevel(t0, root, PageOf(address));
             FirstPage(level, SlotOf(PageOf(address), level) + if r == Unmapping.Refused then 0 else count)
             < cursors[root]
    ensures var level := LeafLevel(t0, root, PageOf(address));
            var s := SlotOf(PageOf(address), level);
            Step(World(t0, cursors, frames), World(t1, cursors, frames),
                 Below(root, FirstPage(level, s), FirstPage(level, s + if r == Unmapping.Refused then 0 else count)))
    ensures Ready(t1, root, table, index, cursors[root])
  {
    hide Lookup, Tree, Ready;
    var level, cleared := LeafLevel(t0, root, PageOf(address)), if r == Unmapping.Refused then 0 else count;
    var s := SlotOf(PageOf(address), level);
    if r == Unmapping.Refused {
      NothingFilled(t0, roots, root, level, s);
    } else {
      ClearedIsFilled(t0, t1, roots, root, level, s, count);
    }
    FilledIsBelow(t0, nodes0, t1, nodes1, roots, root, level, s, Zeros(cleared), table, index, cursors, frames, frames);
  }

  lemma InSlots(level: nat, s: nat, count: nat, page: nat)
    requires 1 <= level <= 3
    ensures s <= Up(page, level - 1) < s + count <==> FirstPage(level, s) <= page < FirstPage(level, s + count)
  {
    UpDigits(page);
    if level == 2 {
      var q, r := page / 512, page % 512;
      assert page == q * 512 + r;
    } else if level == 3 {
      var q, r := page / (512 * 512), page % (512 * 512);
      assert page == q * (512 * 512) + r;
      Quotient(page / 512, 512, q, r / 512);
    }
  }

  // ----- What every run keeps

  lemma StepClear(w0: World, w1: World, event: Event)
    requires AllClear(w0) && Step(w0, w1, event)
    ensures AllClear(w1)
  {
    forall root, page: nat | root in w1.cursors && w1.cursors[root] <= page
      ensures Lookup(w1.t, root, page) == None
    {
      if root in w0.cursors {
        assert w0.cursors[root] <= w1.cursors[root];
        assert UnmappedFrom(w0.t, root, w0.cursors[root]);
        assert Lookup(w1.t, root, page) == Lookup(w0.t, root, page);
      }
    }
  }

  /** Everything at or above the cursor of each address space stays unmapped. */
  lemma {:induction false} AboveStaysUnmapped(states: seq<World>, events: seq<Event>, k: nat)
    requires Run(states, events) && k < |states|
    ensures AllClear(states[k])
    decreases k
  {
    if k > 0 {
      AboveStaysUnmapped(states, events, k - 1);
      StepClear(states[k - 1], states[k], events[k - 1]);
    }
  }

  lemma StepMovesUp(w0: World, w1: World, event: Event)
    requires Step(w0, w1, event)
    ensures forall root | root in w0.cursors :: root in w1.cursors && w0.cursors[root] <= w1.cursors[root]
    ensures w0.frames <= w1.frames
  {}

  lemma {:induction false} CursorMovesUp(states: seq<World>, events: seq<Event>, i: nat, k: nat)
    requires Run(states, events) && i <= k < |states|
    ensures forall root | root in states[i].cursors ::
              root in states[k].cursors && states[i].cursors[root] <= states[k].cursors[root]
    ensures states[i].frames <= states[k].frames
    decreases k - i
  {
    if i < k {
      CursorMovesUp(states, events, i, k - 1);
      StepMovesUp(states[k - 1], states[k], events[k - 1]);
    }
  }

  lemma StepStays(w0: World, w1: World, event: Event, r: nat, page: nat)
    requires Step(w0, w1, event) && r in w0.cursors && page < w0.cursors[r]
    requires !(event.Below? && event.root == r && event.lo <= page < event.hi)
    ensures Lookup(w1.t, r, page) == Lookup(w0.t, r, page)
  {
    hide Lookup;
  }

  /** What lies below a cursor stays where it is until a call in its address space names its address. */
  lemma {:induction false} EarlierStays(states: seq<World>, events: seq<Event>, i: nat, k: nat, r: nat, page: nat)
    requires Run(states, events) && i <= k < |states|
    requires r in states[i].cursors && page < states[i].cursors[r] && Untouched(events, i, k, r, page)
    ensures Lookup(states[k].t, r, page) == Lookup(states[i].t, r, page)
    decreases k - i
  {
    hide Lookup;
    if i < k {
      EarlierStays(states, events, i, k - 1, r, page);
      CursorMovesUp(states, events, i, k - 1);
      StepStays(states[k - 1], states[k], events[k - 1], r, page);
    }
  }

  /** A grant lies below the cursor of its space afterwards. */
  lemma StepGrants(w0: World, w1: World, event: Event, root: nat, g: Grant)
    requires Step(w0, w1, event) && Grants(event, root, g)
    ensures root in w1.cursors && g.first + |g.frames| <= w1.cursors[root] < Slots(1) && Lies(w1.t, root, g)
    ensures root in w0.cursors <==> !event.Opens?
    ensures root in w0.cursors ==> w0.cursors[root] <= g.first
    ensures FromFree(event) ==> NewFrames(w0.frames, w1.frames, g.frames)
  {
    hide Lookup;
    if event.Maps? {
      GrantedAreNew(w0.frames, w0.frames, w1.frames, g.frames);
    }
  }

  /** Main result, for any two calls of a run, whatever was mapped, unmapped or set up in between: in one address space
      the later range lies above the earlier one, and no frame taken from the free ones backs both, in whatever spaces
      they are. */
  lemma GrantsApart(states: seq<World>, events: seq<Event>, i: nat, k: nat, r: nat, g: Grant, r': nat, h: Grant)
    requires Run(states, events) && i < k < |events| && Grants(events[i], r, g) && Grants(events[k], r', h)
    ensures r == r' ==> g.first + |g.frames| <= h.first
    ensures FromFree(events[i]) && FromFree(events[k]) ==>
              forall a, b | 0 <= a < |g.frames| && 0 <= b < |h.frames| :: g.frames[a] != h.frames[b]
  {
    StepGrants(states[i], states[i + 1], events[i], r, g);
    StepGrants(states[k], states[k + 1], events[k], r', h);
    CursorMovesUp(states, events, i + 1, k);
  }

  lemma GrantLookup(states: seq<World>, events: seq<Event>, i: nat, k: nat, root: nat, g: Grant, j: nat)
    requires Run(states, events) && i < k < |states| && Grants(events[i], root, g)
    requires j < |g.frames| && Untouched(events, i + 1, k, root, g.first + j)
    ensures var page := g.first + j;
            && (!events[i].Opens? ==> Lookup(states[i].t, root, page) == None) && page < Slots(1)
            && Lookup(states[k].t, root, page) == Some(g.frames[j])
  {
    hide Lookup;
    var page := g.first + j;
    StepGrants(states[i], states[i + 1], events[i], root, g);
    AboveStaysUnmapped(states, events, i);
    if !events[i].Opens? {
      assert UnmappedFrom(states[i].t, root, states[i].cursors[root]);
    }
    assert Lookup(states[i + 1].t, root, g.first + j) == Some(g.frames[j]);
    EarlierStays(states, events, i + 1, k, root, page);
  }

  /** Main result, for any call that succeeded: its pages were unmapped before it, and from then on each of them is
      translated to the frame it was given, for as long as no call in its address space names its address. */
  lemma GrantStays(states: seq<World>, events: seq<Event>, nodes: map<nat, Node>, roots: set<nat>,
                   i: nat, k: nat, root: nat, g: Grant, j: nat, w: nat)
    requires Run(states, events) && i < k < |states| && Grants(events[i], root, g)
    requires j < |g.frames| && w < PAGE && Untouched(events, i + 1, k, root, g.first + j)
    requires root in roots && Tree(states[k].t, nodes, roots)
    ensures !events[i].Opens? ==> Lookup(states[i].t, root, g.first + j) == None
    ensures Translate(states[k].t, nodes, roots, root, (g.first + j) * PAGE + w) == Some(g.frames[j] + w)
  {
    hide Translate;
    GrantLookup(states, events, i, k, root, g, j);
    PageTranslates(states[k].t, nodes, roots, root, g.first + j, g.frames[j], w);
  }

  lemma FrameAligned(states: seq<World>, events: seq<Event>, i: nat, root: nat, g: Grant, j: nat)
    requires Run(states, events) && i < |events| && Grants(events[i], root, g) && FromFree(events[i]) && j < |g.frames|
    ensures g.frames[j] % PAGE == 0
    ensures forall a | 0 <= a < |g.frames| && a != j :: g.frames[a] != g.frames[j]
  {
    StepGrants(states[i], states[i + 1], events[i], root, g);
  }

  /** Main result. Whatever runs in between, two pages granted from the free frames, in the same or in different address
      spaces, share no byte of physical memory while both are as granted. */
  lemma GrantedMemoryApart(states: seq<World>, events: seq<Event>, nodes: map<nat, Node>, roots: set<nat>, k: nat,
                           i: nat, r: nat, g: Grant, a: nat, u: nat, i': nat, r': nat, h: Grant, b: nat, v: nat)
    requires Run(states, events) && k < |states| && r in roots && r' in roots && Tree(states[k].t, nodes, roots)
    requires i < k && Grants(events[i], r, g) && FromFree(events[i]) && a < |g.frames| && u < PAGE
    requires i' < k && Grants(events[i'], r', h) && FromFree(events[i']) && b < |h.frames| && v < PAGE
    requires Untouched(events, i + 1, k, r, g.first + a) && Untouched(events, i' + 1, k, r', h.first + b)
    requires i != i' || a != b
    ensures Translate(states[k].t, nodes, roots, r, (g.first + a) * PAGE + u)
            != Translate(states[k].t, nodes, roots, r', (h.first + b) * PAGE + v)
  {
    hide Translate, Lookup;
    GrantStays(states, events, nodes, roots, i, k, r, g, a, u);
    GrantStays(states, events, nodes, roots, i', k, r', h, b, v);
    FrameAligned(states, events, i, r, g, a);
    FrameAligned(states, events, i', r', h, b);
    if i < i' {
      GrantsApart(states, events, i, i', r, g, r', h);
    } else if i' < i {
      GrantsApart(states, events, i', i, r', h, r, g);
    }
    BytesApart(g.frames[a], h.frames[b], u, v);
  }

  lemma BytesApart(f: nat, g: nat, u: nat, v: nat)
    requires f % PAGE == 0 && g % PAGE == 0 && f != g && u < PAGE && v < PAGE
    ensures f + u != g + v
  {}

  lemma PageTranslates(t: Tables, nodes: map<nat, Node>, roots: set<nat>, root: nat, page: nat, frame: nat, w: nat)
    requires root in roots && Tree(t, nodes, roots) && page < Slots(1) && w < PAGE
             && Lookup(t, root, page) == Some(frame)
    ensures Translate(t, nodes, roots, root, page * PAGE + w) == Some(frame + w)
  {
    hide Translate;
    PageAddress(page, w);
    LookupTranslates(t, nodes, roots, root, page * PAGE + w, frame);
  }

  lemma PageAddress(page: nat, w: nat)
    requires page < Slots(1) && w < PAGE
    ensures PageOf(page * PAGE + w) == page && (page * PAGE + w) % PAGE == w
  {
    SlotCounts();
    RunDigits1(page, 0, w);
  }

  // ----- Free frames at a given address

  /** A successful paging_map_at that misplaced no table used 4 KiB pages at an aligned address, and remapped
      exactly its range. */
  lemma MapAtRemaps(t0: Tables, t1: Tables, roots: set<nat>, root: nat, address: nat, bytes: nat, flags: Flags,
                    refused: bool, leaves: seq<Entry>)
    requires root in roots && Mappable(t0, root, address, bytes, flags)
    requires Succeeded(t0, t1, roots, root, address, bytes, flags, refused, leaves)
    requires !Misplaced(t0, root, PageOf(address), flags)
    requires !refused ==> !FramesRefused(t0, root, address, bytes, flags)
    requires forall e | e in leaves :: Leaf(e, 1)
    ensures address % PAGE == 0 && |leaves| == PageCount(bytes, 1) && PageOf(address) + |leaves| <= 0x10_0000_0000
    ensures Remapped(t0, t1, roots, root, 1, PageOf(address), leaves)
  {
    LeavesRemap(t0, t1, roots, root, address, bytes, flags, refused, leaves);
    assert SlotOf(PageOf(address), 1) == PageOf(address);
    SlotCounts();
  }

  /** After it each page of the range is translated to the frame it was given. */
  lemma FramesTranslate(t0: Tables, t1: Tables, nodes: map<nat, Node>, roots: set<nat>, root: nat, address: nat,
                        flags: Flags,
                        leaves: seq<Entry>, given: seq<nat>, j: nat, w: nat)
    requires root in roots && Tree(t1, nodes, roots) && address % PAGE == 0
             && PageOf(address) + |leaves| <= 0x10_0000_0000
    requires Remapped(t0, t1, roots, root, 1, PageOf(address), leaves)
    requires leaves == FrameLeaves(given, flags) && (forall f | f in given :: Framed(f)) && j < |given| && w < PAGE
    ensures Translate(t1, nodes, roots, root, address + j * PAGE + w) == Some(given[j] + w)
  {
    hide Translate;
    FrameLooked(t0, t1, roots, root, PageOf(address), flags, leaves, given, j);
    FrameTranslates(t1, nodes, roots, root, address, given[j], j, w);
  }

  /** Through a misplaced table the frames given lie elsewhere up to the next 2 MiB boundary. */
  lemma FramesMisplaced(t0: Tables, t1: Tables, roots: set<nat>, root: nat, address: nat, bytes: nat, flags: Flags,
                        refused: bool, given: seq<nat>, r: nat, q: nat)
    requires Succeeded(t0, t1, roots, root, address, bytes, flags, refused, FrameLeaves(given, flags)) && r in roots
    requires Misplaced(t0, root, PageOf(address), flags) && forall f | f in given :: Framed(f)
    ensures Lookup(t1, r, q) ==
            if r != root then Lookup(t0, r, q)
            else match FateOf(PageOf(address), |given|, q)
                 case Gets(i) => Some(given[i])
                 case Loses => None
                 case Keeps => Lookup(t0, r, q)
  {
    AsideFrames(t0, t1, roots, root, PageOf(address), flags, given, r, q);
  }

  lemma AsideFrames(t0: Tables, t1: Tables, roots: set<nat>, root: nat, page: nat, flags: Flags, given: seq<nat>,
                    r: nat, q: nat)
    requires AsideRemapped(t0, t1, roots, root, page, FrameLeaves(given, flags)) && r in roots
    requires forall f | f in given :: Framed(f)
    ensures Lookup(t1, r, q) ==
            if r != root then Lookup(t0, r, q)
            else match FateOf(page, |given|, q)
                 case Gets(i) => Some(given[i])
                 case Loses => None
                 case Keeps => Lookup(t0, r, q)
  {
    FrameLeavesAre(given, flags);
    assert Lookup(t1, r, q) == AsideTo(t0, root, page, FrameLeaves(given, flags), r, q);
  }

  lemma FrameLooked(t0: Tables, t1: Tables, roots: set<nat>, root: nat, s: nat, flags: Flags, leaves: seq<Entry>,
                    given: seq<nat>, j: nat)
    requires root in roots && Remapped(t0, t1, roots, root, 1, s, leaves)
    requires leaves == FrameLeaves(given, flags) && (forall f | f in given :: Framed(f)) && j < |given|
    ensures Lookup(t1, root, s + j) == Some(given[j])
  {
    FrameLeavesAre(given, flags);
    RemappedPage(t0, t1, roots, root, s, leaves, s + j);
  }

  lemma FrameTranslates(t: Tables, nodes: map<nat, Node>, roots: set<nat>, root: nat, address: nat, frame: nat,
                        j: nat, w: nat)
    requires root in roots && Tree(t, nodes, roots) && address % PAGE == 0 && w < PAGE
             && PageOf(address) + j < 0x10_0000_0000
    requires Lookup(t, root, PageOf(address) + j) == Some(frame)
    ensures Translate(t, nodes, roots, root, address + j * PAGE + w) == Some(frame + w)
  {
    hide Translate;
    FrameAddress(address, j, w);
    LookupTranslates(t, nodes, roots, root, address + j * PAGE + w, frame);
  }

  lemma FrameAddress(address: nat, j: nat, w: nat)
    requires address % PAGE == 0 && w < PAGE && PageOf(address) + j < 0x10_0000_0000
    ensures PageOf(address + j * PAGE + w) == PageOf(address) + j && (address + j * PAGE + w) % PAGE == w
  {
    RunDigits1(address / PAGE, j, w);
    assert (address / PAGE + j) * PAGE + w == address + j * PAGE + w;
  }
}
