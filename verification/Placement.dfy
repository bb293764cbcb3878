/** Where paging_index_find_spot puts a mapping, and the state of an allocation cursor between calls. */
module Placement {
  import opened Wrappers
  import opened PageTables
  import opened AddressSpace
  import opened PagingCursor

  // ----- Frames handed out to 4 KiB mappings

  /** The leaves of a run of pages backed by the given frames. */
  function FrameLeaves(given: seq<nat>, flags: Flags): (leaves: seq<Entry>)
    ensures |leaves| == |given|
  {
    if given == [] then [] else FrameLeaves(given[..|given| - 1], flags) + [LeafEntry(given[|given| - 1], 1, flags)]
  }

  lemma FrameLeavesStep(given: seq<nat>, f: nat, flags: Flags)
    ensures FrameLeaves(given + [f], flags) == FrameLeaves(given, flags) + [LeafEntry(f, 1, flags)]
  {
    assert (given + [f])[..|given|] == given;
  }

  /** An address of a physical page: an entry that holds it leads back to it. */
  predicate Framed(f: nat) {
    f % PAGE == 0 && f < 0x4_0000_0000_0000
  }

  lemma FrameEntry(f: nat, flags: Flags)
    requires Framed(f)
    ensures var e := LeafEntry(f, 1, flags);
            Leaf(e, 1) && e.present && Canonical(e) && PhysicalBits(e.address) == f
  {}

  lemma {:induction false} FrameLeavesAre(given: seq<nat>, flags: Flags)
    requires forall f | f in given :: Framed(f)
    ensures forall i | 0 <= i < |given| ::
              && FrameLeaves(given, flags)[i] == LeafEntry(given[i], 1, flags) != ZERO
              && PhysicalBits(FrameLeaves(given, flags)[i].address) == given[i]
    ensures forall e | e in FrameLeaves(given, flags) :: Leaf(e, 1)
  {
    if given != [] {
      FrameLeavesAre(given[..|given| - 1], flags);
      FrameEntry(given[|given| - 1], flags);
    }
  }

  /** The frames given out since: none was out before, no two are the same. */
  ghost predicate Granted(frames0: set<nat>, frames1: set<nat>, given: seq<nat>) {
    && (forall f :: f in frames1 <==> f in frames0 || f in given)
    && (forall i | 0 <= i < |given| :: given[i] !in frames0 && Framed(given[i]))
    && (forall i, j | 0 <= i < j < |given| :: given[i] != given[j])
  }

  lemma GrantedOne(frames0: set<nat>, frames1: set<nat>, given: seq<nat>, f: nat)
    requires Granted(frames0, frames1, given) && f !in frames1 && Framed(f)
    ensures Granted(frames0, frames1 + {f}, given + [f])
  {
    assert forall i | 0 <= i < |given| :: given[i] in frames1;
  }

  /** Frames handed out since, perhaps with others: page-aligned, nobody had one before, no two are the same. */
  ghost predicate NewFrames(frames0: set<nat>, frames1: set<nat>, given: seq<nat>) {
    && frames0 <= frames1
    && (forall i | 0 <= i < |given| :: Framed(given[i]) && given[i] !in frames0 && given[i] in frames1)
    && (forall i, j | 0 <= i < j < |given| :: given[i] != given[j])
  }

  lemma GrantedAreNew(frames0: set<nat>, frames1: set<nat>, frames2: set<nat>, given: seq<nat>)
    requires frames0 <= frames1 && Granted(frames1, frames2, given)
    ensures NewFrames(frames0, frames2, given)
  {
    assert forall i | 0 <= i < |given| :: given[i] in given;
  }

  lemma GrantedLeaves(frames0: set<nat>, frames1: set<nat>, given: seq<nat>, flags: Flags)
    requires Granted(frames0, frames1, given)
    ensures forall e | e in FrameLeaves(given, flags) :: Leaf(e, 1)
  {
    assert forall f | f in given :: Framed(f);
    FrameLeavesAre(given, flags);
  }

  // ----- Cursors between calls

  /** Slot `n` of level 1 is empty, and nothing lies above it. */
  ghost predicate ClearFrom(t: Tables, root: nat, n: nat) {
    Slot(t, root, 1, n) == ZERO &&
    forall j: nat, m: nat | 1 <= j <= 4 && Up(n, j - 1) < m :: Slot(t, root, j, m) == ZERO
  }

  /** The first level-1 slot under slot `k` of a level. */
  function First(level: nat, k: nat): nat
    requires 1 <= level <= 4
  {
    if level == 1 then k else First(level - 1, k * 512)
  }

  /** A cursor no spot was found for yet: it has only its level-4 table and index, and the first empty level-4
      slot from there on is `k`. */
  ghost predicate Unplaced(t: Tables, table: seq<nat>, index: seq<nat>, k: nat) {
    && |table| == |index| == 4
    && table[2] == table[1] == table[0] == 0 && index[2] == index[1] == index[0] == 0
    && table[3] in t && index[3] <= k < 512
    && forall m: nat | index[3] <= m < k :: Slot(t, table[3], 4, m) != ZERO
  }

  /** The next mapping may go to slot `n`: a cursor in use stands there, a fresh one will be placed there. */
  ghost predicate Ready(t: Tables, root: nat, table: seq<nat>, index: seq<nat>, n: nat) {
    && |table| == |index| == 4 && table[3] == root && ClearFrom(t, root, n)
    && (At(t, table, index, 1, n) || (Unplaced(t, table, index, Up(n, 3)) && n == First(4, Up(n, 3))
                                      && Slot(t, root, 4, Up(n, 3)) == ZERO))
  }

  /** The level whose tables a cursor counts in: level-1 tables up to 2 MiB, level-2 tables up to 1 GiB. */
  function SpotLevel(bytes: nat): nat {
    if bytes <= 0x20_0000 then 2 else if bytes <= 0x4000_0000 then 3 else 4
  }

  /** The units of a request do not fit the table the cursor is in. */
  predicate Full(n: nat, bytes: nat) {
    if bytes <= 0x20_0000 then n % 512 + PageCount(bytes, 1) > 512
    else if bytes <= 0x4000_0000 then n / 512 % 512 + PageCount(bytes, 2) > 512
    else n / 512 / 512 % 512 + PageCount(bytes, 3) > 512
  }

  /** Where a cursor in use maps next: it stays when the pages fit its level-1 table (up to 2 MiB), when the
      2 MiB units fit its level-2 table (up to 1 GiB), or the 1 GiB units its level-3 table; else it moves to
      the start of the next such table. */
  ghost function SpotFor(n: nat, bytes: nat): nat {
    if Full(n, bytes) then First(SpotLevel(bytes), Up(n, SpotLevel(bytes) - 1) + 1) else n
  }

  /** A cursor in use only moves up, and a request of at most 2 MiB never crosses a level-1 table. */
  lemma SpotMovesUp(n: nat, bytes: nat)
    requires 0 < bytes <= 0x80_0000_0000
    ensures n <= SpotFor(n, bytes)
    ensures bytes <= 0x20_0000 ==>
              SpotFor(n, bytes) / 512 == (SpotFor(n, bytes) + PageCount(bytes, 1) - 1) / 512
  {
    UpDigits(n);
    FirstIs(n / 512 + 1, n / 512 / 512 + 1, n / 512 / 512 / 512 + 1);
    assert bytes <= 0x20_0000 ==> 1 <= PageCount(bytes, 1) <= 512;
  }

  /** Main result. Where a cursor in use on slot `n` maps next, in slot arithmetic: up to 2 MiB the spot is `n` if and
      only if the first and the last of the pages lie in one level-1 table, up to 1 GiB if and only if the first and
      the last of its 2 MiB units lie in one level-2 table, else if and only if its 1 GiB units lie in one level-3
      table; if it is not `n` it is the first slot of the next such table. */
  lemma SpotIs(n: nat, bytes: nat)
    requires 0 < bytes <= 0x80_0000_0000
    ensures bytes <= 0x20_0000 ==>
              SpotFor(n, bytes) ==
              if n / 512 == (n + (bytes + 0xFFF) / 0x1000 - 1) / 512 then n else (n / 512 + 1) * 512
    ensures 0x20_0000 < bytes <= 0x4000_0000 ==>
              SpotFor(n, bytes) ==
              if n / 512 / 512 == (n / 512 + (bytes + 0x1F_FFFF) / 0x20_0000 - 1) / 512 then n
              else (n / 512 / 512 + 1) * 512 * 512
    ensures 0x4000_0000 < bytes ==>
              SpotFor(n, bytes) ==
              if n / 512 / 512 / 512 == (n / 512 / 512 + (bytes + 0x3FFF_FFFF) / 0x4000_0000 - 1) / 512 then n
              else (n / 512 / 512 / 512 + 1) * 512 * 512 * 512
  {
    UpDigits(n);
    FirstIs(n / 512 + 1, n / 512 / 512 + 1, n / 512 / 512 / 512 + 1);
    CountIs(bytes);
    if bytes <= 0x20_0000 {
      FitsTable(n, (bytes + 0xFFF) / 0x1000);
    } else if bytes <= 0x4000_0000 {
      FitsTable(n / 512, (bytes + 0x1F_FFFF) / 0x20_0000);
    } else {
      FitsTable(n / 512 / 512, (bytes + 0x3FFF_FFFF) / 0x4000_0000);
    }
  }

  /** The units from slot `m` on stay inside its table if and only if the last lies in the table of the first. */
  lemma FitsTable(m: nat, units: nat)
    requires units > 0
    ensures m % 512 + units <= 512 <==> m / 512 == (m + units - 1) / 512
  {}

  lemma CountIs(bytes: nat)
    requires 0 < bytes < 0x1_0000_0000_0000_0000
    ensures PageCount(bytes, 1) == (bytes + 0xFFF) / 0x1000
    ensures PageCount(bytes, 2) == (bytes + 0x1F_FFFF) / 0x20_0000
    ensures PageCount(bytes, 3) == (bytes + 0x3FFF_FFFF) / 0x4000_0000
  {
    Quotient(bytes + 0xFFFF_FFFF_FFFF_FFFF, 0x1_0000_0000_0000_0000, 1, bytes - 1);
  }

  /** That slot is the least multiple above `n` of the slots a table stands for. */
  lemma NextTableStart(n: nat, d: nat, m: nat)
    requires d > 0 && m % d == 0 && n < m
    ensures n < (n / d + 1) * d <= m && (n / d + 1) * d % d == 0
  {
    var q, k := n / d, m / d;
    assert n == q * d + n % d && m == k * d;
    Quotient((q + 1) * d, d, q + 1, 0);
    if k <= q {
      assert (q - k) * d == q * d - k * d;
      Times(q - k, d);
    } else {
      assert (k - q - 1) * d == k * d - (q + 1) * d;
      Times(k - q - 1, d);
    }
  }

  lemma Times(x: nat, d: nat)
    ensures x * d >= 0
  {}

  lemma FirstIs(k2: nat, k3: nat, k4: nat)
    ensures First(2, k2) == k2 * 512 && First(3, k3) == k3 * 512 * 512 && First(4, k4) == k4 * 512 * 512 * 512
  {
    assert First(3, k3) == First(2, k3 * 512);
    assert First(4, k4) == First(3, k4 * 512) == First(2, k4 * 512 * 512);
  }

  /** The cursor stands on the empty slot `s`, nothing lies above it, and only tables on the way were made. */
  ghost predicate Spotted(t0: Tables, t: Tables, roots: set<nat>, root: nat, s: nat, table: seq<nat>, index: seq<nat>) {
    && At(t, table, index, 1, s) && table[3] == root
    && Filled(t0, t, roots, root, 1, s, []) && ClearFrom(t, root, s)
  }

  // ----- The steps to a new spot

  /** Skipping taken slots of a level: the walk from slot `p0` stands on slot `p`; `k` is the first empty one. */
  ghost predicate Skipping(t0: Tables, t: Tables, roots: set<nat>, root: nat, level: nat, p0: nat, p: nat, k: nat,
                           table: seq<nat>, index: seq<nat>)
  {
    && At(t, table, index, level, p) && table[3] == root && p0 <= p <= k
    && Filled(t0, t, roots, root, level, p, [])
    && (p == p0 ==> t == t0)
    && t0.Keys <= t.Keys
  }

  /** Slots p0 .. k-1 of a level are taken and slot k is not; below level 4, k follows p0. */
  ghost predicate Taken(t: Tables, root: nat, level: nat, p0: nat, k: nat)
    requires 1 <= level <= 4
  {
    && p0 <= k && (level < 4 ==> k == p0 + 1)
    && Slot(t, root, level, k) == ZERO
    && forall m: nat | p0 <= m < k :: Slot(t, root, level, m) != ZERO
  }

  lemma SkipReads(t0: Tables, t: Tables, roots: set<nat>, root: nat, level: nat, p0: nat, p: nat, k: nat,
                  table: seq<nat>, index: seq<nat>)
    requires 1 <= level <= 4 && root in roots && Taken(t0, root, level, p0, k)
    requires Skipping(t0, t, roots, root, level, p0, p, k, table, index)
    ensures index[level - 1] < 512 && table[level - 1] in t
    ensures t[table[level - 1]][index[level - 1]] == Slot(t, root, level, p) == Slot(t0, root, level, p)
    ensures (Slot(t, root, level, p) == ZERO) <==> p == k
  {
    AtSlot(t, table, index, level, p);
    assert FilledAt(t0, t, root, level, p, [], root, level, p);
  }

  lemma Skipped(t0: Tables, t: Tables, t': Tables, roots: set<nat>, root: nat, level: nat, p0: nat, p: nat, k: nat,
                table: seq<nat>, index: seq<nat>, table': seq<nat>, index': seq<nat>)
    requires 2 <= level <= 4 && root in roots && Taken(t0, root, level, p0, k) && p < k
    requires Skipping(t0, t, roots, root, level, p0, p, k, table, index)
    requires Moved(t, t', roots, root, level, true, p, table, index, table', index')
    ensures Skipping(t0, t', roots, root, level, p0, p + 1, k, table', index')
  {
    if level == 4 {
      var q := p + 1;
      forall r: nat, j: nat, m: nat | r in roots && 1 <= j <= 4
        ensures FilledAt(t0, t', root, level, q, [], r, j, m)
      {
        assert FilledAt(t0, t, root, level, p, [], r, j, m);
        assert FilledAt(t, t', root, level, p + 1, [], r, j, m);
      }
    }
  }

  /** A taken slot is left for the next: below level 4 that happens once. */
  lemma SkipNext(t0: Tables, t: Tables, roots: set<nat>, root: nat, level: nat, p0: nat, p: nat, k: nat,
                 table: seq<nat>, index: seq<nat>)
    requires 2 <= level <= 4 && root in roots && Taken(t0, root, level, p0, k) && p != k
    requires level < 4 ==> NoLeafAbove(t0, root, level, k)
    requires Skipping(t0, t, roots, root, level, p0, p, k, table, index)
    ensures p < k && NoLeafAbove(t, root, level, p + 1) && (level < 4 ==> p + 1 == k)
  {}

  /** Tables are being opened down to slot `s` = First(level, k). */
  ghost predicate Opened(t0: Tables, t: Tables, roots: set<nat>, root: nat, level: nat, k: nat, table: seq<nat>,
                         index: seq<nat>)
  {
    && At(t, table, index, level, k) && table[3] == root && t0.Keys <= t.Keys
    && Filled(t0, t, roots, root, level, k, []) && Slot(t, root, level, k) == ZERO
  }

  lemma OpenedBelow(t0: Tables, t: Tables, t': Tables, roots: set<nat>, root: nat, level: nat, k: nat, child: nat,
                    table: seq<nat>, index: seq<nat>)
    requires 2 <= level <= 4 && root in roots && Opened(t0, t, roots, root, level, k, table, index)
    requires Wrote(t, t', roots, root, level, k, PointerTo(child)) && child in t' && t.Keys <= t'.Keys
    ensures Opened(t0, t', roots, root, level - 1, k * 512, table[level - 2 := child], index[level - 2 := 0])
  {
    var n := k * 512;
    assert n / 512 == k && n % 512 == 0;
    FilledThenHung(t0, t, t', roots, root, level - 1, n, child);
    HungAt(t, t', roots, level - 1, n, child, table, index);
    assert Slot(t', root, level - 1, n) == Patched(t, root, level, k, PointerTo(child), root, level - 1, n);
    assert Up(n, 1) == Up(k, 0) == k;
  }

  // ----- ClearFrom and Ready through a call

  lemma StillClear(t0: Tables, t1: Tables, roots: set<nat>, root: nat, n: nat, s: nat, leaves: seq<Entry>)
    requires root in roots && ClearFrom(t0, root, n) && n <= s
    requires Filled(t0, t1, roots, root, 1, s, leaves)
    ensures ClearFrom(t1, root, s + |leaves|)
  {
    hide Slot;
    var end := s + |leaves|;
    forall j: nat, m: nat | 1 <= j <= 4 && Up(end, j - 1) <= m
      ensures (m == Up(end, j - 1) && j > 1) || Slot(t1, root, j, m) == ZERO
    {
      UpMonotone(n, s, j - 1);
      UpMonotone(s, end, j - 1);
      assert FilledAt(t0, t1, root, 1, s, leaves, root, j, m);
    }
    assert Up(end, 0) == end;
  }

  /** Nothing above slot `n`: no leaf, and no mapped page from `n` on. */
  lemma ClearAbove(t: Tables, root: nat, n: nat, m: nat)
    requires ClearFrom(t, root, n) && n <= m
    requires !Slot(t, root, 2, n / 512).size && !Slot(t, root, 3, n / 512 / 512).size
    ensures NoLeafAbove(t, root, 1, m) && Slot(t, root, 1, m) == ZERO && Lookup(t, root, m) == None
  {
    UpDigits(n);
    UpDigits(m);
    UpMonotone(n, m, 1);
    UpMonotone(n, m, 2);
    assert Up(n, 0) == n;
  }

  lemma AtPath(t: Tables, nodes: map<nat, Node>, roots: set<nat>, root: nat, n: nat, table: seq<nat>, index: seq<nat>)
    requires Tree(t, nodes, roots) && At(t, table, index, 1, n) && table[3] == root
    ensures table[0] != 0 && table[1] != 0 && table[2] != 0
    ensures index[0] == n % 512 && index[1] == n / 512 % 512 && index[2] == n / 512 / 512 % 512
            && index[3] == n / 512 / 512 / 512
    ensures At(t, table, index, 2, n / 512) && At(t, table, index, 3, n / 512 / 512)
            && At(t, table, index, 4, n / 512 / 512 / 512)
    ensures IsPointer(Slot(t, root, 2, n / 512)) && IsPointer(Slot(t, root, 3, n / 512 / 512))
    ensures IsPointer(Slot(t, root, 4, n / 512 / 512 / 512))
  {
    AtBound(t, table, index, 4, n / 512 / 512 / 512);
  }

  /** The virtual address the source composes from the four indices. */
  function CursorAddress(index: seq<nat>): nat
    requires |index| == 4
  {
    index[0] * 0x1000 + index[1] * 0x20_0000 + index[2] * 0x4000_0000 + index[3] * 0x80_0000_0000
  }

  lemma CursorAddressIs(t: Tables, nodes: map<nat, Node>, roots: set<nat>, root: nat, n: nat, table: seq<nat>,
                        index: seq<nat>)
    requires Tree(t, nodes, roots) && At(t, table, index, 1, n) && table[3] == root
    ensures CursorAddress(index) == n * PAGE
  {
    AtPath(t, nodes, roots, root, n, table, index);
  }

  // ----- Looking for a spot

  lemma SkipStarts(t: Tables, roots: set<nat>, root: nat, level: nat, p0: nat, k: nat, table: seq<nat>, index: seq<nat>)
    requires At(t, table, index, level, p0) && table[3] == root && p0 <= k
    ensures Skipping(t, t, roots, root, level, p0, p0, k, table, index)
  {
    NothingFilled(t, roots, root, level, p0);
  }

  /** A cursor in use leaves its slot of a level: that slot is taken, the next one is empty. */
  ghost predicate Leaves(t: Tables, root: nat, n: nat, level: nat, table: seq<nat>, index: seq<nat>)
    requires 2 <= level <= 4
  {
    var p0 := Up(n, level - 1);
    && At(t, table, index, level, p0) && Taken(t, root, level, p0, p0 + 1)
    && NoLeafAbove(t, root, level, p0 + 1)
    && n < First(level, p0 + 1)
  }

  lemma LeavesSlot(t: Tables, nodes: map<nat, Node>, roots: set<nat>, root: nat, n: nat, level: nat, table: seq<nat>,
                   index: seq<nat>)
    requires Tree(t, nodes, roots) && root in roots && 2 <= level <= 4
    requires At(t, table, index, 1, n) && table[3] == root && ClearFrom(t, root, n)
    ensures Leaves(t, root, n, level, table, index)
  {
    hide Slot;
    UpDigits(n);
    AtPath(t, nodes, roots, root, n, table, index);
    FirstIs(n / 512 + 1, n / 512 / 512 + 1, n / 512 / 512 / 512 + 1);
    if level == 2 {
      NoLeafNext(t, root, n);
    }
  }

  lemma NoLeafNext(t: Tables, root: nat, n: nat)
    requires ClearFrom(t, root, n) && !Slot(t, root, 3, n / 512 / 512).size
    ensures NoLeafAbove(t, root, 2, n / 512 + 1)
  {
    UpDigits(n);
    if (n / 512 + 1) / 512 != n / 512 / 512 {
      assert Up(n, 2) < (n / 512 + 1) / 512;
    }
  }

  /** A newly opened spot is clear, as all that lies above the cursor's old one. */
  lemma SpotClear(t0: Tables, t: Tables, roots: set<nat>, root: nat, n: nat, s: nat, table: seq<nat>, index: seq<nat>)
    requires root in roots && ClearFrom(t0, root, n) && n <= s && Opened(t0, t, roots, root, 1, s, table, index)
    ensures Spotted(t0, t, roots, root, s, table, index)
  {
    StillClear(t0, t, roots, root, n, s, []);
  }

  /** No new spot: the level-4 slot after the cursor's is past the end. */
  lemma SpotBound(level: nat, k: nat)
    requires 2 <= level <= 4
    ensures First(level, k) >= Slots(1) <==> k >= Slots(level)
  {
    FirstIs(k, k, k);
    assert Slots(3) == 0x4_0000 && Slots(2) == Slots(3) * 512 && Slots(1) == Slots(2) * 512;
  }

  /** What a call to find a spot sees in the cursor: one in use has all its tables, a fresh one has none. */
  lemma InUse(t: Tables, nodes: map<nat, Node>, roots: set<nat>, root: nat, n: nat, table: seq<nat>, index: seq<nat>)
    requires Tree(t, nodes, roots) && root in roots && Ready(t, root, table, index, n)
    ensures At(t, table, index, 1, n) <==> table[2] != 0
    ensures table[2] == 0 ==> table[1] == 0
    ensures table[2] != 0 ==> table[0] != 0 && table[1] != 0 && n < Slots(1)
    ensures table[2] != 0 ==>
              index[0] == n % 512 && index[1] == n / 512 % 512 && index[2] == n / 512 / 512 % 512
  {
    if At(t, table, index, 1, n) {
      AtPath(t, nodes, roots, root, n, table, index);
      AtBound(t, table, index, 1, n);
    }
  }

  lemma StaysPut(t: Tables, roots: set<nat>, root: nat, n: nat, table: seq<nat>, index: seq<nat>)
    requires At(t, table, index, 1, n) && table[3] == root && ClearFrom(t, root, n)
    ensures Spotted(t, t, roots, root, n, table, index)
  {
    NothingFilled(t, roots, root, 1, n);
  }

  /** Where a cursor maps next: one in use as SpotFor says, a fresh one at the slot it is ready for. */
  ghost function NextSpot(t: Tables, table: seq<nat>, index: seq<nat>, n: nat, bytes: nat): nat {
    if At(t, table, index, 1, n) then SpotFor(n, bytes) else n
  }

  // ----- Mapping at the spot found

  /** No page from the slot a cursor is ready for on is mapped. */
  lemma ReadyUnused(t: Tables, nodes: map<nat, Node>, roots: set<nat>, root: nat, table: seq<nat>, index: seq<nat>,
                    n: nat, m: nat)
    requires Tree(t, nodes, roots) && root in roots && Ready(t, root, table, index, n) && n <= m
    ensures Lookup(t, root, m) == None && NoLeafAbove(t, root, 1, m)
  {
    UpDigits(n);
    if At(t, table, index, 1, n) {
      AtPath(t, nodes, roots, root, n, table, index);
    } else {
      NothingUnder(t, root, 3, n / 512 / 512, 4);
      NothingUnder(t, root, 2, n / 512, 4);
    }
    ClearAbove(t, root, n, m);
  }

  /** Room for a run: no leaf lies above the pages of a spot. */
  lemma SpotRoom(t: Tables, nodes: map<nat, Node>, roots: set<nat>, root: nat, s: nat, pages: nat, table: seq<nat>,
                 index: seq<nat>)
    requires Tree(t, nodes, roots) && root in roots && At(t, table, index, 1, s) && table[3] == root
             && ClearFrom(t, root, s)
    ensures forall m | s < m <= s + pages :: NoLeafAbove(t, root, 1, m)
    ensures Slot(t, root, 1, s) == ZERO
  {
    AtPath(t, nodes, roots, root, s, table, index);
    forall m | s < m <= s + pages
      ensures NoLeafAbove(t, root, 1, m)
    {
      ClearAbove(t, root, s, m);
    }
  }

  /** There is no spot below the end of the address space. The source then goes on looking from level-4 index 0, which
      is not followed. */
  ghost predicate WrapsAround(s: nat, r: Outcome) {
    r.Overruns? && s >= Slots(1)
  }

  /** How a mapping call that picks its own spot `s` ends. On success its leaves are in place, and the cursor
      stands on the slot after them with nothing at or above it. */
  ghost predicate MappedAtSpot(t0: Tables, t: Tables, roots: set<nat>, root: nat, s: nat, pages: nat,
                               leaves: seq<Entry>,
                               table: seq<nat>, index: seq<nat>, r: Outcome)
  {
    match r
    case Succeeds =>
      && s + pages < Slots(1) && |leaves| == pages && Filled(t0, t, roots, root, 1, s, leaves)
      && At(t, table, index, 1, s + pages) && Ready(t, root, table, index, s + pages)
    case Overruns => s + pages >= Slots(1)
    case Spins => true
    case _ => false
  }

  lemma SpotMapped(t0: Tables, t1: Tables, t2: Tables, roots: set<nat>, root: nat, s: nat, pages: nat,
                   leaves: seq<Entry>,
                   table1: seq<nat>, index1: seq<nat>, table: seq<nat>, index: seq<nat>, r: Outcome)
    requires root in roots && Spotted(t0, t1, roots, root, s, table1, index1)
    requires |leaves| <= pages && (r.Succeeds? ==> |leaves| == pages)
    requires RunState(t1, t2, roots, root, 1, s, leaves, table, index, r)
    ensures MappedAtSpot(t0, t2, roots, root, s, pages, leaves, table, index, r)
  {
    if r.Succeeds? {
      FilledAfterGrowth(t0, t1, t2, roots, root, 1, s, leaves);
      StillClear(t1, t2, roots, root, s, s, leaves);
    }
  }
}
