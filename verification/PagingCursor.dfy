/** The paging cursor and the turns of a mapping loop, as facts about table memory: the level-indexed
    odometer of src/common/paging.c, its carries, and what a run of writes has done so far. */
module PagingCursor {
  import opened Wrappers
  import opened PageTables
  import opened AddressSpace

  /** How a step or a call of the pager ends. `Spins`: physical memory is exhausted and the source scans
      its bitmap forever. `Overruns`: the walk stepped past the last slot of the address space, and the C
      function returns 0 although it may have done all its work. `Strays`: the next write goes through a
      pointer that is no table; the state described is the one before that write. */
  datatype Outcome = Succeeds | Refuses | Overruns | Strays | Spins

  /** Slots in one level of an address space. */
  function Slots(level: nat): nat
    requires 1 <= level <= 4
    decreases 4 - level
  {
    if level == 4 then 512 else Slots(level + 1) * 512
  }

  /** The cursor stands on slot `n` of `level`: its indices down to `level` are the base-512 digits of `n`,
      and its table pointers are the tables those indices select. */
  ghost predicate At(t: Tables, table: seq<nat>, index: seq<nat>, level: nat, n: nat)
    decreases 4 - level
  {
    && |table| == |index| == 4 && 1 <= level <= 4
    && index[level - 1] == n % 512
    && TableAt(t, table[3], level, table[level - 1], n / 512)
    && (level < 4 ==> At(t, table, index, level + 1, n / 512))
  }

  lemma {:induction false} AtBound(t: Tables, table: seq<nat>, index: seq<nat>, level: nat, n: nat)
    requires At(t, table, index, level, n)
    ensures n < Slots(level)
    decreases 4 - level
  {
    if level < 4 {
      AtBound(t, table, index, level + 1, n / 512);
    }
  }

  lemma AtSlot(t: Tables, table: seq<nat>, index: seq<nat>, level: nat, n: nat)
    requires At(t, table, index, level, n)
    ensures table[level - 1] in t && Slot(t, table[3], level, n) == t[table[level - 1]][index[level - 1]]
  {
    SlotIn(t, table[3], level, table[level - 1], n / 512, n % 512);
  }

  lemma {:induction false} AtCopied(t: Tables, table: seq<nat>, index: seq<nat>, table': seq<nat>, index': seq<nat>,
                                    level: nat, n: nat)
    requires At(t, table, index, level, n) && |index'| == |table'| == 4
    requires forall j | level - 1 <= j < 4 :: index'[j] == index[j] && table'[j] == table[j]
    ensures At(t, table', index', level, n)
    decreases 4 - level
  {
    if level < 4 {
      AtCopied(t, table, index, table', index', level + 1, n / 512);
    }
  }

  /** Pointers in place stay in place while a run fills slots of the cursor's level. */
  lemma {:induction false} AtThrough(t0: Tables, t1: Tables, roots: set<nat>, level: nat, s: nat, leaves: seq<Entry>,
                  table: seq<nat>, index: seq<nat>, top: nat, n: nat)
    requires level <= top && At(t0, table, index, top, n) && table[3] in roots
    requires Filled(t0, t1, roots, table[3], level, s, leaves) && t0.Keys <= t1.Keys
    ensures At(t1, table, index, top, n)
    decreases 4 - top
  {
    if top < 4 {
      AtThrough(t0, t1, roots, level, s, leaves, table, index, top + 1, n / 512);
      assert FilledAt(t0, t1, table[3], level, s, leaves, table[3], top + 1, n / 512);
    }
  }

  /** The pointer loaded from slot `n` of `level`, or the empty table hung there. */
  ghost predicate Descended(t: Tables, t': Tables, roots: set<nat>, root: nat, level: nat, n: nat, masked: bool,
                            child: nat)
    requires 1 <= level <= 4
  {
    var e := Slot(t, root, level, n);
    if e != ZERO then t' == t && child == (if masked then e.address else Word(e))
    else Wrote(t, t', roots, root, level, n, PointerTo(child)) && child in t' && t.Keys <= t'.Keys
  }

  /** The index of `level` is the last digit of `n`, and the cursor of the levels above stands at n/512. */
  ghost predicate Poised(t: Tables, table: seq<nat>, index: seq<nat>, level: nat, n: nat) {
    && |table| == |index| == 4 && 1 <= level <= 4
    && index[level - 1] == n % 512
    && if level == 4 then At(t, table, index, 4, n) else At(t, table, index, level + 1, n / 512)
  }

  /** The cursor moved from slot n to slot n+1 of `level`; tables grew only on the way to slot n+1. When the
      unmasked load of a level-3 pointer met an existing table, the pointer kept is no table, and the indices are
      those of slot n+1 all the same. */
  ghost predicate Moved(t0: Tables, t1: Tables, roots: set<nat>, root: nat, level: nat, masked: bool, n: nat,
                        table0: seq<nat>, index0: seq<nat>, table1: seq<nat>, index1: seq<nat>)
  {
    && |table0| == |index0| == |table1| == |index1| == 4 && 1 <= level <= 4 && table1[3] == root
    && (forall j | 0 <= j < level - 1 :: table1[j] == table0[j] && index1[j] == index0[j])
    && t0.Keys <= t1.Keys && Filled(t0, t1, roots, root, level, n + 1, [])
    && (if !masked && (n + 1) % 512 == 0 && Slot(t0, root, 4, (n + 1) / 512) != ZERO then
          table1[2] !in t1 && Poised(t1, table1, index1, level, n + 1)
        else At(t1, table1, index1, level, n + 1))
  }

  /** How one move of the cursor from slot n ends: it overruns exactly from the last slot of the level. */
  ghost predicate Stepped(t0: Tables, t1: Tables, roots: set<nat>, root: nat, level: nat, masked: bool, n: nat,
                          table0: seq<nat>, index0: seq<nat>, table1: seq<nat>, index1: seq<nat>, r: Outcome)
    requires 1 <= level <= 4
  {
    match r
    case Succeeds =>
      && n + 1 < Slots(level)
      && Moved(t0, t1, roots, root, level, masked, n, table0, index0, table1, index1)
    case Overruns => n + 1 == Slots(level) && t1 == t0
    case Spins => true
    case _ => false
  }

  /** A move from slot n of a cursor whose table pointer at `level` may be that of another slot: a carry reloads
      it, otherwise only the index changes. */
  ghost predicate Advanced(t0: Tables, t1: Tables, roots: set<nat>, root: nat, level: nat, masked: bool, n: nat,
                           table0: seq<nat>, index0: seq<nat>, table1: seq<nat>, index1: seq<nat>, r: Outcome)
    requires Poised(t0, table0, index0, level, n)
  {
    if At(t0, table0, index0, level, n) || n % 512 == 511 then
      Stepped(t0, t1, roots, root, level, masked, n, table0, index0, table1, index1, r)
    else
      r.Succeeds? && t1 == t0 && table1 == table0 && index1 == index0[level - 1 := n % 512 + 1]
  }

  lemma NextDigits(n: nat)
    ensures n % 512 < 511 ==> (n + 1) / 512 == n / 512 && (n + 1) % 512 == n % 512 + 1
    ensures n % 512 == 511 ==> (n + 1) / 512 == n / 512 + 1 && (n + 1) % 512 == 0
  {}

  lemma Carry(t: Tables, table: seq<nat>, index: seq<nat>, level: nat, n: nat)
    requires Poised(t, table, index, level, n) && index[level - 1] >= 511
    ensures index[level - 1] == 511 && n % 512 == 511 && (n + 1) / 512 == n / 512 + 1 && (n + 1) % 512 == 0
    ensures level == 4 ==> n + 1 == Slots(level)
    ensures level < 4 ==> At(t, table, index[level - 1 := 512], level + 1, n / 512)
    ensures level < 4 ==> (n / 512 + 1 < Slots(level + 1) <==> n + 1 < Slots(level))
  {
    NextDigits(n);
    if level == 4 {
      AtBound(t, table, index, 4, n);
    } else {
      AtBound(t, table, index, level + 1, n / 512);
      AtCopied(t, table, index, table, index[level - 1 := 512], level + 1, n / 512);
    }
  }

  lemma NoCarry(t: Tables, roots: set<nat>, table: seq<nat>, index: seq<nat>, level: nat, masked: bool, n: nat)
    requires At(t, table, index, level, n) && table[3] in roots
    requires index[level - 1] + 1 < 512
    ensures n + 1 < Slots(level)
    ensures Moved(t, t, roots, table[3], level, masked, n, table, index, table,
                  index[level - 1 := index[level - 1] + 1])
  {
    var index1 := index[level - 1 := index[level - 1] + 1];
    NextDigits(n);
    NothingFilled(t, roots, table[3], level, n + 1);
    AtBound(t, table, index, level, n);
    if level < 4 {
      AtBound(t, table, index, level + 1, n / 512);
      AtCopied(t, table, index, table, index1, level + 1, n / 512);
    }
  }

  /** The index was bumped without overflow. */
  lemma BumpIndex(t: Tables, roots: set<nat>, table: seq<nat>, index: seq<nat>, level: nat, masked: bool, n: nat)
    requires Poised(t, table, index, level, n) && table[3] in roots && index[level - 1] + 1 < 512
    ensures Advanced(t, t, roots, table[3], level, masked, n, table, index,
                     table, index[level - 1 := index[level - 1] + 1], Succeeds)
  {
    if At(t, table, index, level, n) {
      NoCarry(t, roots, table, index, level, masked, n);
    }
  }

  /** The level above has moved on; the index of `level` is still to restart. */
  ghost predicate Carried(t0: Tables, t1: Tables, roots: set<nat>, root: nat, level: nat, n: nat,
                          table0: seq<nat>, index0: seq<nat>, table2: seq<nat>, index2: seq<nat>)
  {
    && 1 <= level < 4 && |index0| == 4 && n % 512 == 511
    && (level < 3 ==> !Slot(t0, root, level + 1, n / 512 + 1).size)
    && Moved(t0, t1, roots, root, level + 1, true, n / 512, table0, index0[level - 1 := 512], table2, index2)
  }

  /** The entry the level above selects is there, is no leaf, and is as it was. */
  lemma CarryReady(t0: Tables, t1: Tables, nodes: map<nat, Node>, roots: set<nat>, root: nat, level: nat, n: nat,
                   table0: seq<nat>, index0: seq<nat>, table2: seq<nat>, index2: seq<nat>)
    requires Tree(t1, nodes, roots) && root in roots
    requires Carried(t0, t1, roots, root, level, n, table0, index0, table2, index2)
    ensures index2[level] == (n / 512 + 1) % 512 && TableAt(t1, root, level + 1, table2[level], (n / 512 + 1) / 512)
    ensures t1[table2[level]][index2[level]] == Slot(t1, root, level + 1, n / 512 + 1) ==
              Slot(t0, root, level + 1, n / 512 + 1)
    ensures var e := Slot(t1, root, level + 1, n / 512 + 1);
            !e.size && Canonical(e) && (e != ZERO ==> e.present && e.address in t1)
  {
    var up := n / 512 + 1;
    AtSlot(t1, table2, index2, level + 1, up);
    SlotHome(t1, nodes, roots, root, level + 1, up);
    assert FilledAt(t0, t1, root, level + 1, up, [], root, level + 1, up);
  }

  lemma CarryMoves(t0: Tables, t1: Tables, t2: Tables, nodes: map<nat, Node>, roots: set<nat>, root: nat, level: nat,
                   masked: bool, n: nat,
                   table0: seq<nat>, index0: seq<nat>, table2: seq<nat>, index2: seq<nat>, child: nat)
    requires Tree(t1, nodes, roots) && root in roots && (masked || level == 3)
    requires Carried(t0, t1, roots, root, level, n, table0, index0, table2, index2)
    requires Descended(t1, t2, roots, root, level + 1, n / 512 + 1, masked, child)
    ensures Moved(t0, t2, roots, root, level, masked, n, table0, index0, table2[level - 1 := child],
                  index2[level - 1 := 0])
  {
    hide Slot, Wrote;
    NextDigits(n);
    CarryReady(t0, t1, nodes, roots, root, level, n, table0, index0, table2, index2);
    if Slot(t1, root, level + 1, n / 512 + 1) == ZERO {
      FilledThenHung(t0, t1, t2, roots, root, level, n + 1, child);
      HungAt(t1, t2, roots, level, n + 1, child, table2, index2);
    } else {
      FilledBelow(t0, t1, roots, root, level, n + 1);
      if masked {
        AtCarried(t1, table2, index2, level, n + 1, child);
      } else {
        StrayWord(t1, nodes, roots, Slot(t1, root, level + 1, n / 512 + 1));
        AtCopied(t1, table2, index2, table2[level - 1 := child], index2[level - 1 := 0], level + 1, (n + 1) / 512);
      }
    }
  }

  lemma HungAt(t1: Tables, t2: Tables, roots: set<nat>, level: nat, n: nat, child: nat, table: seq<nat>,
               index: seq<nat>)
    requires 1 <= level < 4 && At(t1, table, index, level + 1, n / 512) && n % 512 == 0 && table[3] in roots
    requires Slot(t1, table[3], level + 1, n / 512) == ZERO
    requires Wrote(t1, t2, roots, table[3], level + 1, n / 512, PointerTo(child)) && child in t2 && t1.Keys <= t2.Keys
    ensures At(t2, table[level - 1 := child], index[level - 1 := 0], level, n)
  {
    NothingFilled(t1, roots, table[3], level + 1, n / 512);
    FilledThenHung(t1, t1, t2, roots, table[3], level, n, child);
    AtThrough(t1, t2, roots, level, n, [], table, index, level + 1, n / 512);
    AtCarried(t2, table, index, level, n, child);
  }

  lemma AtCarried(t: Tables, table: seq<nat>, index: seq<nat>, level: nat, n: nat, child: nat)
    requires 1 <= level < 4 && At(t, table, index, level + 1, n / 512) && n % 512 == 0
    requires TableAt(t, table[3], level, child, n / 512)
    ensures At(t, table[level - 1 := child], index[level - 1 := 0], level, n)
  {
    AtCopied(t, table, index, table[level - 1 := child], index[level - 1 := 0], level + 1, n / 512);
  }

  /** An entry word with its flag bits left in is not the address of a table. */
  lemma StrayWord(t: Tables, nodes: map<nat, Node>, roots: set<nat>, e: Entry)
    requires Tree(t, nodes, roots) && Canonical(e) && e.present
    ensures Word(e) !in t
  {
    EntryCodec(e);
    FlagFacts(e);
  }

  // ----- A run of leaves

  /** The flags a mapping call takes; READ and EXECUTE have no effect on the entries. */
  datatype Flags = Flags(write: bool, user: bool, huge1G: bool, huge2M: bool, replace: bool)

  /** Bytes covered by `count` leaves of a level: 4 KiB, 2 MiB or 1 GiB each. */
  function LeafBytes(level: nat, count: nat): nat {
    if level == 1 then count * PAGE else if level == 2 then count * 0x20_0000 else count * 0x4000_0000
  }

  /** 4 KiB pages covered by `count` leaves of a level, the unit of used_virtual_pages. */
  function LeafPages(level: nat, count: nat): nat {
    if level == 1 then count else if level == 2 then count * 512 else count * (512 * 512)
  }

  /** `(address & PAGING_ADDRESS_MASK) | paging_convert_flags(flags)`, with the size bit on a huge page. */
  function LeafEntry(address: nat, level: nat, flags: Flags): Entry {
    Entry(AddressBits(address), true, flags.write, flags.user, level > 1)
  }

  /** The leaves that map `count` consecutive pages from physical `address` on, in 64-bit arithmetic. */
  function RunLeaves(address: nat, level: nat, flags: Flags, count: nat): (leaves: seq<Entry>)
    ensures |leaves| == count
  {
    if count == 0 then []
    else RunLeaves(address, level, flags, count - 1)
         + [LeafEntry((address + LeafBytes(level, count - 1)) % 0x1_0000_0000_0000_0000, level, flags)]
  }

  lemma RunLeavesStep(address: nat, level: nat, flags: Flags, i: nat)
    ensures var e := LeafEntry((address + LeafBytes(level, i)) % 0x1_0000_0000_0000_0000, level, flags);
            && Leaf(e, level) && e.present && Canonical(e)
            && RunLeaves(address, level, flags, i + 1) == RunLeaves(address, level, flags, i) + [e]
  {}

  lemma {:induction false} LeafOfRun(address: nat, level: nat, flags: Flags, count: nat, i: nat)
    requires i < count
    ensures RunLeaves(address, level, flags, count)[i] ==
            LeafEntry((address + LeafBytes(level, i)) % 0x1_0000_0000_0000_0000, level, flags)
  {
    if i < count - 1 {
      LeafOfRun(address, level, flags, count - 1, i);
    }
  }

  lemma RunLeavesAreLeaves(address: nat, level: nat, flags: Flags, count: nat)
    ensures forall e | e in RunLeaves(address, level, flags, count) :: Leaf(e, level)
  {
    forall e | e in RunLeaves(address, level, flags, count)
      ensures Leaf(e, level)
    {
      var i :| 0 <= i < count && RunLeaves(address, level, flags, count)[i] == e;
      LeafOfRun(address, level, flags, count, i);
    }
  }

  /** The unmasked load at the start of slot `n` meets an existing level-3 table. */
  ghost predicate StrayAt(t: Tables, root: nat, level: nat, n: nat) {
    level == 3 && n % 512 == 0 && Slot(t, root, 4, n / 512) != ZERO
  }

  /** No such load comes before the last of `count` leaves from slot `s` on is written. */
  ghost predicate NoStray(t: Tables, root: nat, level: nat, s: nat, count: nat) {
    forall n | s < n < s + count :: !StrayAt(t, root, level, n)
  }

  /** A run that started at slot `s` has written `leaves` and stands on the slot after them. */
  ghost predicate Running(t0: Tables, t: Tables, roots: set<nat>, root: nat, level: nat, s: nat, leaves: seq<Entry>,
                          table: seq<nat>, index: seq<nat>)
  {
    && |table| == |index| == 4 && 1 <= level <= 3 && table[3] == root && t0.Keys <= t.Keys
    && Filled(t0, t, roots, root, level, s, leaves)
    && (if |leaves| > 0 && StrayAt(t0, root, level, s + |leaves|) then table[2] !in t
        else At(t, table, index, level, s + |leaves|))
  }

  /** How a run that started at slot `s` stands after writing `leaves`. */
  ghost predicate RunState(t0: Tables, t: Tables, roots: set<nat>, root: nat, level: nat, s: nat, leaves: seq<Entry>,
                           table: seq<nat>, index: seq<nat>, r: Outcome)
    requires 1 <= level <= 3
  {
    match r
    case Succeeds =>
      && s + |leaves| < Slots(level) && NoStray(t0, root, level, s, |leaves|)
      && Running(t0, t, roots, root, level, s, leaves, table, index)
    case Overruns =>
      && s + |leaves| == Slots(level) && NoStray(t0, root, level, s, |leaves|)
      && Filled(t0, t, roots, root, level, s, leaves)
    case Strays =>
      && |leaves| > 0 && StrayAt(t0, root, level, s + |leaves|) && NoStray(t0, root, level, s, |leaves|)
      && Filled(t0, t, roots, root, level, s, leaves)
    case Refuses => false
    case Spins => true
  }

  lemma RunStarts(t: Tables, roots: set<nat>, root: nat, level: nat, s: nat, table: seq<nat>, index: seq<nat>)
    requires 1 <= level <= 3 && At(t, table, index, level, s) && table[3] == root
    ensures RunState(t, t, roots, root, level, s, [], table, index, Succeeds)
  {
    NothingFilled(t, roots, root, level, s);
    AtBound(t, table, index, level, s);
  }

  lemma {:induction false} WroteAt(t: Tables, t': Tables, roots: set<nat>, level: nat, n: nat, e: Entry,
                                   table: seq<nat>, index: seq<nat>, top: nat, m: nat)
    requires At(t, table, index, top, m) && table[3] in roots && 1 <= level <= top && t.Keys <= t'.Keys
    requires Wrote(t, t', roots, table[3], level, n, e)
    ensures At(t', table, index, top, m)
    decreases 4 - top
  {
    if top < 4 {
      WroteAt(t, t', roots, level, n, e, table, index, top + 1, m / 512);
      assert Slot(t', table[3], top + 1, m / 512) == Patched(t, table[3], level, n, e, table[3], top + 1, m / 512);
    }
  }

  lemma WroteNoLeafAbove(t: Tables, t': Tables, roots: set<nat>, root: nat, level: nat, n: nat, e: Entry, m: nat)
    requires root in roots && 1 <= level <= 3
    requires Wrote(t, t', roots, root, level, n, e) && NoLeafAbove(t, root, level, m)
    ensures NoLeafAbove(t', root, level, m)
  {
    assert level < 3 ==> Slot(t', root, 3, m / 512) == Patched(t, root, level, n, e, root, 3, m / 512);
    assert level < 2 ==> Slot(t', root, 2, m / 512) == Patched(t, root, level, n, e, root, 2, m / 512);
    assert level < 2 ==> Slot(t', root, 3, m / 512 / 512) == Patched(t, root, level, n, e, root, 3, m / 512 / 512);
  }

  lemma LeafWritten(t: Tables, nodes: map<nat, Node>, roots: set<nat>, root: nat, level: nat, n: nat,
                    table: seq<nat>, index: seq<nat>, e: Entry)
    requires Tree(t, nodes, roots) && root in roots && 1 <= level <= 3
    requires At(t, table, index, level, n) && table[3] == root
    requires (e == ZERO || (Leaf(e, level) && e.present)) && Canonical(e)
    ensures table[level - 1] in t && index[level - 1] == n % 512
    ensures var t' := Write(t, table[level - 1], n % 512, e);
            Tree(t', nodes, roots) && Wrote(t, t', roots, root, level, n, e)
  {
    TableHome(t, nodes, roots, root, level, table[level - 1], n / 512);
    WriteKeepsTree(t, nodes, roots, table[level - 1], n % 512, e);
    WriteLeaf(t, nodes, roots, root, level, table[level - 1], n, e);
  }

  /** The leaf is written and the cursor has moved on, or could not. */
  lemma LeafDone(t0: Tables, t1: Tables, t2: Tables, t3: Tables, roots: set<nat>, root: nat, level: nat, s: nat,
                 leaves: seq<Entry>, e: Entry,
                 table: seq<nat>, index: seq<nat>, table': seq<nat>, index': seq<nat>, r: Outcome)
    requires root in roots && 1 <= level <= 3 && RunState(t0, t1, roots, root, level, s, leaves, table, index,
                                                          Succeeds) && table[level - 1] in t1
    requires Wrote(t1, t2, roots, root, level, s + |leaves|, e) && t2.Keys == t1.Keys
    requires Stepped(t2, t3, roots, root, level, level < 3, s + |leaves|, table, index, table', index', r)
    ensures RunState(t0, t3, roots, root, level, s, leaves + [e], table', index', r)
  {
    if r.Succeeds? {
      FilledStep(t0, t1, t2, t3, roots, root, level, s, leaves, e);
      if level == 3 && (s + |leaves| + 1) % 512 == 0 {
        NextTable(t0, t1, t2, roots, root, s, leaves, e);
      }
    } else if r.Overruns? {
      NothingFilled(t2, roots, root, level, s + |leaves| + 1);
      FilledStep(t0, t1, t2, t2, roots, root, level, s, leaves, e);
    }
  }

  /** A run below a level-4 slot leaves the next level-4 slot as it was. */
  lemma NextTable(t0: Tables, t1: Tables, t2: Tables, roots: set<nat>, root: nat, s: nat, leaves: seq<Entry>, e: Entry)
    requires root in roots && Filled(t0, t1, roots, root, 3, s, leaves)
    requires Wrote(t1, t2, roots, root, 3, s + |leaves|, e) && (s + |leaves| + 1) % 512 == 0
    ensures Slot(t2, root, 4, (s + |leaves| + 1) / 512) == Slot(t0, root, 4, (s + |leaves| + 1) / 512)
  {
    var n, m := s + |leaves|, (s + |leaves| + 1) / 512;
    assert FilledAt(t0, t1, root, 3, s, leaves, root, 4, m);
    assert Up(s, 1) == s / 512 && Up(n, 1) == n / 512 < m;
    assert Slot(t2, root, 4, m) == Patched(t1, root, 3, n, e, root, 4, m);
  }

  // ----- A run that starts in a misplaced table

  /** The cursor's indices spell slot `n`; its table pointer at `level` is the table of slot `w`, another one only
      when a level-1 table was misplaced within the same level-2 table. */
  ghost predicate Stands(t: Tables, table: seq<nat>, index: seq<nat>, level: nat, n: nat, w: nat) {
    if w == n then At(t, table, index, level, n)
    else
      && |table| == |index| == 4 && level == 1
      && w % 512 == n % 512 == index[0] && w / 512 / 512 == n / 512 / 512
      && At(t, table, index, 2, n / 512) && TableAt(t, table[3], 1, table[0], w / 512)
  }

  /** With the index of slot `w` in level 2 the cursor would stand on slot `w`. */
  function AsideIndex(index: seq<nat>, n: nat, w: nat): seq<nat>
    requires |index| == 4
  {
    if w == n then index else index[1 := w / 512 % 512]
  }

  lemma StandsAt(t: Tables, table: seq<nat>, index: seq<nat>, level: nat, n: nat, w: nat)
    requires Stands(t, table, index, level, n, w)
    ensures |table| == |index| == 4 && 1 <= level <= 4
    ensures At(t, table, AsideIndex(index, n, w), level, w) && Poised(t, table, index, level, n)
    ensures AsideIndex(index, n, w)[level - 1] == index[level - 1]
  {
    if w != n {
      var index' := AsideIndex(index, n, w);
      AtCopied(t, table, index, table, index', 3, n / 512 / 512);
      assert At(t, table, index', 2, w / 512);
    }
  }

  lemma StandsStored(t: Tables, t': Tables, roots: set<nat>, level: nat, n: nat, w: nat, e: Entry,
                     table: seq<nat>, index: seq<nat>)
    requires Stands(t, table, index, level, n, w) && table[3] in roots && 1 <= level <= 3 && t.Keys == t'.Keys
    requires Wrote(t, t', roots, table[3], level, w, e)
    ensures Stands(t', table, index, level, n, w)
  {
    if w == n {
      WroteAt(t, t', roots, level, w, e, table, index, level, n);
    } else {
      WroteAt(t, t', roots, level, w, e, table, index, 2, n / 512);
      assert Slot(t', table[3], 2, w / 512) == Patched(t, table[3], 1, w, e, table[3], 2, w / 512);
    }
  }

  /** Nothing but the index moves within a misplaced table. */
  lemma StandsNext(t: Tables, table: seq<nat>, index: seq<nat>, n: nat, w: nat)
    requires Stands(t, table, index, 1, n, w) && w != n && n % 512 < 511
    ensures Stands(t, table, index[0 := n % 512 + 1], 1, n + 1, w + 1)
  {
    NextDigits(n);
    NextDigits(w);
    AtCopied(t, table, index, table, index[0 := n % 512 + 1], 2, n / 512);
  }

  /** Two slots of a level whose tables differ: the pointer is the table of one of them only. */
  lemma StandsOff(t: Tables, nodes: map<nat, Node>, roots: set<nat>, table: seq<nat>, index: seq<nat>, level: nat,
                  n: nat, w: nat)
    requires Stands(t, table, index, level, n, w) && w != n
    requires Tree(t, nodes, roots) && table[3] in roots
    ensures level == 1 && !At(t, table, index, level, n)
  {
    if At(t, table, index, 1, n) {
      OnePath(t, nodes, roots, table[0], table[3], 1, n / 512, table[3], 1, w / 512);
    }
  }

  lemma StandsTurned(t: Tables, t': Tables, roots: set<nat>, root: nat, level: nat, n: nat, w: nat,
                     table: seq<nat>, index: seq<nat>, table': seq<nat>, index': seq<nat>, r: Outcome)
    requires Stands(t, table, index, level, n, w) && Poised(t, table, index, level, n) && table[3] == root
    requires Advanced(t, t', roots, root, level, level < 3, n, table, index, table', index', r)
    requires w != n ==> level == 1 && !At(t, table, index, level, n)
    ensures if w == n || n % 512 == 511 then
              Stepped(t, t', roots, root, level, level < 3, n, table, index, table', index', r)
            else
              r.Succeeds? && t' == t && |table'| == 4 && table'[3] == root
                  && Stands(t', table', index', level, n + 1, w + 1)
  {
    if w != n && n % 512 != 511 {
      StandsNext(t, table, index, n, w);
    }
  }

  /** One turn of a mapping loop from slot n: a leaf was stored at slot `w`, giving `t1`, and the cursor moved. */
  ghost predicate Turned(t0: Tables, t1: Tables, t2: Tables, roots: set<nat>, root: nat, level: nat, n: nat, w: nat,
                         e: Entry, table0: seq<nat>, index0: seq<nat>, table1: seq<nat>, index1: seq<nat>, r: Outcome)
    requires 1 <= level <= 3
  {
    && t1.Keys == t0.Keys && Wrote(t0, t1, roots, root, level, w, e)
    && if w == n || n % 512 == 511 then
         Stepped(t1, t2, roots, root, level, level < 3, n, table0, index0, table1, index1, r)
       else
         r.Succeeds? && t2 == t1 && |table1| == 4 && table1[3] == root
             && Stands(t2, table1, index1, level, n + 1, w + 1)
  }

  /** Pages from slot `s` to the end of its level-1 table. */
  function ToCarry(s: nat): nat {
    512 - s % 512
  }

  /** How a run of pages from slot `s` stands when its level-1 table is that of slot `w`: up to the first carry
      its leaves went to slot `w` on, the later ones to where they belong. `turned` is the memory at that carry. */
  ghost predicate AsideState(t0: Tables, turned: Tables, t: Tables, roots: set<nat>, root: nat, s: nat, w: nat,
                             leaves: seq<Entry>, table: seq<nat>, index: seq<nat>, r: Outcome)
  {
    if |leaves| < ToCarry(s) then
      && r.Succeeds? && Filled(t0, t, roots, root, 1, w, leaves)
      && Stands(t, table, index, 1, s + |leaves|, w + |leaves|) && table[3] == root
    else
      && Filled(t0, turned, roots, root, 1, w, leaves[..ToCarry(s)])
      && RunState(turned, t, roots, root, 1, s + ToCarry(s), leaves[ToCarry(s)..], table, index, r)
  }

  /** A run from slot `s` whose first table is that of slot `w`. */
  ghost predicate Mapping(t0: Tables, t: Tables, roots: set<nat>, root: nat, level: nat, s: nat, w: nat,
                          leaves: seq<Entry>, table: seq<nat>, index: seq<nat>, r: Outcome)
    requires 1 <= level <= 3
  {
    r.Spins? || exists turned: Tables :: MappingVia(t0, turned, t, roots, root, level, s, w, leaves, table, index, r)
  }

  ghost predicate MappingVia(t0: Tables, turned: Tables, t: Tables, roots: set<nat>, root: nat, level: nat, s: nat,
                             w: nat, leaves: seq<Entry>, table: seq<nat>, index: seq<nat>, r: Outcome)
    requires 1 <= level <= 3
  {
    if w == s then RunState(t0, t, roots, root, level, s, leaves, table, index, r)
    else level == 1 && w % 512 == s % 512 && AsideState(t0, turned, t, roots, root, s, w, leaves, table, index, r)
  }

  /** The slot the next leaf of such a run goes to. */
  function NextSlot(s: nat, w: nat, count: nat): nat {
    if count < ToCarry(s) then w + count else s + count
  }

  lemma MappingStarts(t: Tables, roots: set<nat>, root: nat, level: nat, s: nat, w: nat, table: seq<nat>,
                      index: seq<nat>)
    requires 1 <= level <= 3 && Stands(t, table, index, level, s, w) && table[3] == root
    ensures Mapping(t, t, roots, root, level, s, w, [], table, index, Succeeds)
  {
    if w == s {
      RunStarts(t, roots, root, level, s, table, index);
    } else {
      NothingFilled(t, roots, root, 1, w);
    }
    assert MappingVia(t, t, t, roots, root, level, s, w, [], table, index, Succeeds);
  }

  lemma MappingReady(t0: Tables, t: Tables, roots: set<nat>, root: nat, level: nat, s: nat, w: nat,
                     leaves: seq<Entry>, table: seq<nat>, index: seq<nat>)
    requires root in roots && 1 <= level <= 3
    requires Mapping(t0, t, roots, root, level, s, w, leaves, table, index, Succeeds)
    requires NoLeafAbove(t0, root, level, s + |leaves| + 1)
    ensures |table| == |index| == 4 && table[3] == root
    ensures table[level - 1] !in t ==> Mapping(t0, t, roots, root, level, s, w, leaves, table, index, Strays)
    ensures table[level - 1] in t ==> Stands(t, table, index, level, s + |leaves|, NextSlot(s, w, |leaves|))
    ensures NoLeafAbove(t, root, level, s + |leaves| + 1)
  {
    var turned: Tables :| MappingVia(t0, turned, t, roots, root, level, s, w, leaves, table, index, Succeeds);
    if w == s {
      RunReady(t0, t, roots, root, level, s, leaves, table, index);
      if table[level - 1] !in t {
        assert MappingVia(t0, t0, t, roots, root, level, s, w, leaves, table, index, Strays);
      }
    } else if |leaves| < ToCarry(s) {
      FilledNoLeafAbove(t0, t, roots, root, 1, w, leaves, s + |leaves| + 1);
      assert Stands(t, table, index, 1, s + |leaves|, w + |leaves|);
    } else {
      TurnedReady(t0, turned, t, roots, root, s, w, leaves, table, index);
    }
  }

  lemma RunReady(t0: Tables, t: Tables, roots: set<nat>, root: nat, level: nat, s: nat, leaves: seq<Entry>,
                 table: seq<nat>, index: seq<nat>)
    requires root in roots && 1 <= level <= 3
    requires RunState(t0, t, roots, root, level, s, leaves, table, index, Succeeds)
    requires NoLeafAbove(t0, root, level, s + |leaves| + 1)
    ensures |table| == |index| == 4 && table[3] == root
    ensures if table[level - 1] !in t then RunState(t0, t, roots, root, level, s, leaves, table, index, Strays)
            else At(t, table, index, level, s + |leaves|)
    ensures NoLeafAbove(t, root, level, s + |leaves| + 1)
  {
    FilledNoLeafAbove(t0, t, roots, root, level, s, leaves, s + |leaves| + 1);
  }

  lemma TurnedReady(t0: Tables, turned: Tables, t: Tables, roots: set<nat>, root: nat, s: nat, w: nat,
                    leaves: seq<Entry>, table: seq<nat>, index: seq<nat>)
    requires root in roots && |leaves| >= ToCarry(s)
    requires AsideState(t0, turned, t, roots, root, s, w, leaves, table, index, Succeeds)
    requires NoLeafAbove(t0, root, 1, s + |leaves| + 1)
    ensures At(t, table, index, 1, s + |leaves|) && table[3] == root
    ensures NoLeafAbove(t, root, 1, s + |leaves| + 1)
  {
    var k := ToCarry(s);
    assert s + k + |leaves[k..]| == s + |leaves|;
    FilledNoLeafAbove(t0, turned, roots, root, 1, w, leaves[..k], s + |leaves| + 1);
    FilledNoLeafAbove(turned, t, roots, root, 1, s + k, leaves[k..], s + |leaves| + 1);
  }

  /** After one turn the run has one leaf more. */
  lemma MappingTurns(t0: Tables, t1: Tables, t2: Tables, t3: Tables, roots: set<nat>, root: nat, level: nat, s: nat,
                     w: nat, leaves: seq<Entry>, e: Entry,
                     table: seq<nat>, index: seq<nat>, table': seq<nat>, index': seq<nat>, r: Outcome)
    requires root in roots && 1 <= level <= 3
    requires Mapping(t0, t1, roots, root, level, s, w, leaves, table, index, Succeeds) && |table| == 4
             && table[level - 1] in t1
    requires Turned(t1, t2, t3, roots, root, level, s + |leaves|, NextSlot(s, w, |leaves|), e,
                    table, index, table', index', r)
    ensures Mapping(t0, t3, roots, root, level, s, w, leaves + [e], table', index', r)
  {
    var turned: Tables :| MappingVia(t0, turned, t1, roots, root, level, s, w, leaves, table, index, Succeeds);
    if w == s {
      LeafDone(t0, t1, t2, t3, roots, root, level, s, leaves, e, table, index, table', index', r);
    } else if |leaves| < ToCarry(s) {
      AsideTurns(t0, t1, t2, t3, roots, root, s, w, leaves, e, table, index, table', index', r);
      turned := t2;
    } else {
      TurnedTurns(t0, turned, t1, t2, t3, roots, root, s, w, leaves, e, table, index, table', index', r);
    }
    assert r.Spins? || MappingVia(t0, turned, t3, roots, root, level, s, w, leaves + [e], table', index', r);
  }

  lemma MappingEnds(t0: Tables, t: Tables, roots: set<nat>, root: nat, level: nat, s: nat, w: nat,
                    leaves: seq<Entry>, table: seq<nat>, index: seq<nat>, r: Outcome)
    requires 1 <= level <= 3 && Mapping(t0, t, roots, root, level, s, w, leaves, table, index, r)
    ensures !r.Refuses? && (level < 3 ==> !r.Strays?)
    ensures w == s ==> RunState(t0, t, roots, root, level, s, leaves, table, index, r)
  {}

  lemma AsideTurns(t0: Tables, t1: Tables, t2: Tables, t3: Tables, roots: set<nat>, root: nat, s: nat, w: nat,
                   leaves: seq<Entry>, e: Entry,
                   table: seq<nat>, index: seq<nat>, table': seq<nat>, index': seq<nat>, r: Outcome)
    requires root in roots && w != s && w % 512 == s % 512 && |leaves| < ToCarry(s)
    requires Filled(t0, t1, roots, root, 1, w, leaves)
    requires Turned(t1, t2, t3, roots, root, 1, s + |leaves|, w + |leaves|, e, table, index, table', index', r)
    ensures r.Spins? || AsideState(t0, t2, t3, roots, root, s, w, leaves + [e], table', index', r)
  {
    hide At, Stands;
    var k := ToCarry(s);
    NothingFilled(t2, roots, root, 1, w + |leaves| + 1);
    FilledStep(t0, t1, t2, t2, roots, root, 1, w, leaves, e);
    if |leaves| + 1 == k {
      assert (leaves + [e])[..k] == leaves + [e] && (leaves + [e])[k..] == [];
      FirstCarry(t2, t3, roots, root, s, table, index, table', index', r);
    }
  }

  lemma FirstCarry(t2: Tables, t3: Tables, roots: set<nat>, root: nat, s: nat,
                   table: seq<nat>, index: seq<nat>, table': seq<nat>, index': seq<nat>, r: Outcome)
    requires root in roots
    requires Stepped(t2, t3, roots, root, 1, true, s + ToCarry(s) - 1, table, index, table', index', r)
    ensures RunState(t2, t3, roots, root, 1, s + ToCarry(s), [], table', index', r)
  {
    NothingFilled(t2, roots, root, 1, s + ToCarry(s));
  }

  lemma TurnedTurns(t0: Tables, turned: Tables, t1: Tables, t2: Tables, t3: Tables, roots: set<nat>, root: nat, s: nat,
                    w: nat, leaves: seq<Entry>, e: Entry,
                    table: seq<nat>, index: seq<nat>, table': seq<nat>, index': seq<nat>, r: Outcome)
    requires root in roots && |leaves| >= ToCarry(s) && |table| == 4 && table[0] in t1
    requires AsideState(t0, turned, t1, roots, root, s, w, leaves, table, index, Succeeds)
    requires Turned(t1, t2, t3, roots, root, 1, s + |leaves|, s + |leaves|, e, table, index, table', index', r)
    ensures AsideState(t0, turned, t3, roots, root, s, w, leaves + [e], table', index', r)
  {
    hide At;
    var k := ToCarry(s);
    assert s + k + |leaves[k..]| == s + |leaves|;
    LeafDone(turned, t1, t2, t3, roots, root, 1, s + k, leaves[k..], e, table, index, table', index', r);
    assert (leaves + [e])[..k] == leaves[..k] && (leaves + [e])[k..] == leaves[k..] + [e];
  }

  /** A page just marked is a fresh page-aligned address. */
  lemma FreshPage(f: nat, marked: set<nat>, length: nat, nodes: map<nat, Node>)
    requires f % 4096 == 0 && f / 4096 !in marked && 0 in marked && f < 4096 * 64 * length && length < 0x1_0000_0000
    requires forall g | g in nodes :: g / PAGE in marked
    ensures f !in nodes && f % PAGE == 0 && 0 < f < 0x10_0000_0000_0000
  {}

  // ----- Finding the slot of an address

  /** The cursor stands on slot `n`; on the way, tables were created where there were none. */
  ghost predicate Located(t0: Tables, t: Tables, roots: set<nat>, root: nat, level: nat, n: nat, table: seq<nat>,
                          index: seq<nat>)
  {
    && At(t, table, index, level, n) && table[3] == root && t0.Keys <= t.Keys
    && Filled(t0, t, roots, root, level, n, [])
  }

  /** Loading or creating the next table down. */
  lemma LocatedBelow(t0: Tables, t1: Tables, t2: Tables, nodes: map<nat, Node>, roots: set<nat>, root: nat,
                     level: nat, n: nat,
                     table: seq<nat>, index: seq<nat>, child: nat)
    requires 1 <= level <= 3 && root in roots && Tree(t1, nodes, roots)
    requires Located(t0, t1, roots, root, level + 1, n / 512, table, index)
    requires !Slot(t1, root, level + 1, n / 512).size
    requires Descended(t1, t2, roots, root, level + 1, n / 512, true, child)
    ensures Located(t0, t2, roots, root, level, n, table[level - 1 := child], index[level - 1 := n % 512])
  {
    var table', index' := table[level - 1 := child], index[level - 1 := n % 512];
    SlotHome(t1, nodes, roots, root, level + 1, n / 512);
    if Slot(t1, root, level + 1, n / 512) == ZERO {
      FilledThenHung(t0, t1, t2, roots, root, level, n, child);
      NothingFilled(t1, roots, root, level + 1, n / 512);
      FilledThenHung(t1, t1, t2, roots, root, level, n, child);
      AtThrough(t1, t2, roots, level, n, [], table, index, level + 1, n / 512);
    } else {
      FilledBelow(t0, t1, roots, root, level, n);
    }
    AtCopied(t2, table, index, table', index', level + 1, n / 512);
  }

  /** The page size at an address: the huge flags, or an existing 2 MiB leaf, decide. */
  ghost function TargetLevel(t: Tables, root: nat, page: nat, flags: Flags): nat {
    if flags.huge1G then 3
    else if flags.huge2M || Slot(t, root, 2, page / 512).size then 2
    else 1
  }

  /** A 4 KiB mapping whose level-1 table does not exist is linked at the level-3 index of the address; that is
      the wrong slot unless the two indices are equal. */
  ghost predicate Misplaced(t: Tables, root: nat, page: nat, flags: Flags) {
    && !flags.huge1G && !flags.huge2M
    && Slot(t, root, 2, page / 512) == ZERO
    && page / 512 / 512 % 512 != page / 512 % 512
  }

  /** The level-2 slot such a table lands in. */
  function MisplacedSlot(page: nat): nat {
    page / 512 / 512 * 512 + page / 512 / 512 % 512
  }

  /** The slot of a page at a level. */
  ghost function SlotOf(page: nat, level: nat): nat
    requires 1 <= level
  {
    Up(page, level - 1)
  }

  predicate Aligned(address: nat, flags: Flags) {
    address % (if flags.huge1G then 0x4000_0000 else if flags.huge2M then 0x20_0000 else PAGE) == 0
  }

  /** The page whose place in its level-1 table the address takes then. */
  function MisplacedPage(page: nat): nat {
    MisplacedSlot(page) * 512 + page % 512
  }

  /** The level-1 slot the first leaf goes to. */
  ghost function StartSlot(t: Tables, root: nat, page: nat, flags: Flags): nat {
    if Misplaced(t, root, page, flags) then MisplacedPage(page) else SlotOf(page, TargetLevel(t, root, page, flags))
  }

  /** No leaf of a larger page size appeared. */
  ghost predicate NoNewLeaf(t0: Tables, t: Tables, root: nat) {
    forall j: nat, m: nat | 2 <= j <= 3 :: Slot(t, root, j, m).size ==> Slot(t0, root, j, m).size
  }

  /** The cursor spells the page, but its new level-1 table hangs at the misplaced slot, where it emptied what
      was there. */
  ghost predicate Aside(t0: Tables, t: Tables, roots: set<nat>, root: nat, page: nat, table: seq<nat>,
                        index: seq<nat>) {
    && Emptied(t0, t, roots, root, MisplacedSlot(page)) && NoNewLeaf(t0, t, root)
    && Stands(t, table, index, 1, page, MisplacedPage(page)) && table[3] == root
    && Slot(t, root, 2, page / 512) == ZERO && Slot(t, root, 1, MisplacedPage(page)) == ZERO
  }

  /** What resolving an address to a cursor leaves behind. A misplaced table empties the slot it lands in;
      otherwise no address is translated differently. */
  ghost predicate Indexed(t0: Tables, t: Tables, roots: set<nat>, root: nat, address: nat, flags: Flags,
                          table: seq<nat>, index: seq<nat>, r: Outcome)
  {
    var page := PageOf(address);
    var level := TargetLevel(t0, root, page, flags);
    match r
    case Succeeds =>
      && Aligned(address, flags)
      && if Misplaced(t0, root, page, flags) then Aside(t0, t, roots, root, page, table, index)
         else Located(t0, t, roots, root, level, SlotOf(page, level), table, index)
    case Refuses =>
      && !Aligned(address, flags)
      && NothingMapped(t0, t, roots, root, page, flags)
    case Overruns => false
    case Strays => false
    case Spins => true
  }

  /** The address was resolved and no leaf was written. */
  ghost predicate NothingMapped(t0: Tables, t: Tables, roots: set<nat>, root: nat, page: nat, flags: Flags) {
    var level := TargetLevel(t0, root, page, flags);
    if Misplaced(t0, root, page, flags) then Emptied(t0, t, roots, root, MisplacedSlot(page))
    else Filled(t0, t, roots, root, level, SlotOf(page, level), [])
  }

  /** All 512 pages under slot `m` of level 2 lost their translation, no other page of any address space did. */
  ghost predicate Emptied(t0: Tables, t: Tables, roots: set<nat>, root: nat, m: nat) {
    forall r: nat, page: nat | r in roots ::
      Lookup(t, r, page) == (if r == root && page / 512 == m then None else Lookup(t0, r, page))
  }

  lemma MisplacedEmpties(t0: Tables, t1: Tables, t2: Tables, roots: set<nat>, root: nat, n: nat, m: nat, child: nat)
    requires root in roots && Filled(t0, t1, roots, root, 2, n, [])
    requires Wrote(t1, t2, roots, root, 2, m, PointerTo(child)) && !Slot(t1, root, 3, m / 512).size
    ensures Emptied(t0, t2, roots, root, m)
  {
    forall r: nat, page: nat | r in roots
      ensures Lookup(t2, r, page) == (if r == root && page / 512 == m then None else Lookup(t0, r, page))
    {
      FilledPage(t0, t1, roots, root, 2, n, [], r, page);
      UpDigits(page);
      assert Slot(t2, r, 3, page / 512 / 512) == Patched(t1, root, 2, m, PointerTo(child), r, 3, page / 512 / 512);
      assert Slot(t2, r, 2, page / 512) == Patched(t1, root, 2, m, PointerTo(child), r, 2, page / 512);
      assert Slot(t2, r, 1, page) == Patched(t1, root, 2, m, PointerTo(child), r, 1, page);
    }
  }

  lemma MisplacedNoLeaf(t0: Tables, t1: Tables, t2: Tables, roots: set<nat>, root: nat, n: nat, m: nat, child: nat)
    requires root in roots && Filled(t0, t1, roots, root, 2, n, [])
    requires Wrote(t1, t2, roots, root, 2, m, PointerTo(child))
    ensures NoNewLeaf(t0, t2, root)
  {
    forall j: nat, k: nat | 2 <= j <= 3
      ensures Slot(t2, root, j, k).size ==> Slot(t0, root, j, k).size
    {
      assert FilledAt(t0, t1, root, 2, n, [], root, j, k);
      assert Slot(t2, root, j, k) == Patched(t1, root, 2, m, PointerTo(child), root, j, k);
    }
  }

  /** The index fields of an address are the digits of its page number. */
  lemma AddressDigits(address: nat)
    ensures var page := PageOf(address);
            && address / 0x80_0000_0000 % 512 == page / 512 / 512 / 512 < 512
            && address / 0x4000_0000 % 512 == page / 512 / 512 % 512
            && address / 0x20_0000 % 512 == page / 512 % 512
            && address / PAGE % 512 == page % 512
            && SlotOf(page, 3) == page / 512 / 512 && SlotOf(page, 2) == page / 512 && SlotOf(page, 1) == page
  {
    Digits(address);
    PageDigits(address / PAGE);
    UpDigits(PageOf(address));
  }

  lemma AddressIndex(address: nat, level: nat)
    requires 1 <= level <= 3
    ensures address / LeafBytes(level, 1) % 512 == SlotOf(PageOf(address), level) % 512
  {
    AddressDigits(address);
  }

  lemma LocatedRoot(t: Tables, nodes: map<nat, Node>, roots: set<nat>, root: nat, n: nat, table: seq<nat>,
                    index: seq<nat>)
    requires Tree(t, nodes, roots) && root in roots && n < 512
    requires |table| == |index| == 4 && table[3] == root && index[3] == n
    ensures Located(t, t, roots, root, 4, n, table, index)
    ensures !Slot(t, root, 4, n).size
  {
    NothingFilled(t, roots, root, 4, n);
    SlotHome(t, nodes, roots, root, 4, n);
  }

  /** Growth to a slot leaves that slot as it was. */
  lemma LocatedSlot(t0: Tables, t: Tables, roots: set<nat>, root: nat, level: nat, n: nat, table: seq<nat>,
                    index: seq<nat>)
    requires 1 <= level <= 3 && root in roots && Located(t0, t, roots, root, level, n, table, index)
    ensures Slot(t, root, level, n) == Slot(t0, root, level, n) == t[table[level - 1]][index[level - 1]]
  {
    AtSlot(t, table, index, level, n);
    assert FilledAt(t0, t, root, level, n, [], root, level, n);
  }

  lemma LocatedNoLeaf(t0: Tables, t: Tables, roots: set<nat>, root: nat, n: nat, table: seq<nat>, index: seq<nat>)
    requires root in roots && Located(t0, t, roots, root, 2, n, table, index)
    ensures !Slot(t, root, 3, n / 512).size
  {}

  lemma MisplacedDigits(page: nat)
    ensures MisplacedSlot(page) / 512 == page / 512 / 512 && MisplacedSlot(page) % 512 == page / 512 / 512 % 512
    ensures page / 512 / 512 % 512 == page / 512 % 512 <==> MisplacedSlot(page) == page / 512
  {}

  /** The last table down: found, or linked where it belongs. */
  lemma LastLevel(t0: Tables, t1: Tables, t2: Tables, nodes: map<nat, Node>, roots: set<nat>, root: nat, page: nat,
                  flags: Flags, table: seq<nat>, index: seq<nat>, child: nat)
    requires root in roots && Tree(t1, nodes, roots) && !flags.huge1G && !flags.huge2M
    requires Located(t0, t1, roots, root, 2, page / 512, table, index) && !Misplaced(t0, root, page, flags)
    requires Descended(t1, t2, roots, root, 2, page / 512, true, child)
    ensures var level := TargetLevel(t0, root, page, flags);
            Located(t0, t2, roots, root, level, SlotOf(page, level), table[0 := child], index[0 := page % 512])
  {
    UpDigits(page);
    LocatedSlot(t0, t1, roots, root, 2, page / 512, table, index);
    if Slot(t1, root, 2, page / 512).size {
      AtCopied(t1, table, index, table[0 := child], index[0 := page % 512], 2, page / 512);
    } else {
      LocatedBelow(t0, t1, t2, nodes, roots, root, 1, page, table, index, child);
    }
  }

  /** The last table down: linked at the misplaced slot. */
  lemma LastLevelAside(t0: Tables, t1: Tables, t2: Tables, nodes: map<nat, Node>, roots: set<nat>, root: nat, page: nat,
                       flags: Flags, table: seq<nat>, index: seq<nat>, child: nat)
    requires root in roots && Tree(t1, nodes, roots) && Misplaced(t0, root, page, flags)
    requires Located(t0, t1, roots, root, 2, page / 512, table, index)
    requires Wrote(t1, t2, roots, root, 2, MisplacedSlot(page), PointerTo(child)) && child in t2 && t1.Keys <= t2.Keys
    ensures Aside(t0, t2, roots, root, page, table[0 := child], index[0 := page % 512])
  {
    var m, w, e := MisplacedSlot(page), MisplacedPage(page), PointerTo(child);
    MisplacedDigits(page);
    LocatedSlot(t0, t1, roots, root, 2, page / 512, table, index);
    MisplacedEmpties(t0, t1, t2, roots, root, page / 512, m, child);
    MisplacedNoLeaf(t0, t1, t2, roots, root, page / 512, m, child);
    WroteAt(t1, t2, roots, 2, m, e, table, index, 2, page / 512);
    AtCopied(t2, table, index, table[0 := child], index[0 := page % 512], 2, page / 512);
    MisplacedSlots(t1, t2, roots, root, page, child);
  }

  lemma MisplacedSlots(t1: Tables, t2: Tables, roots: set<nat>, root: nat, page: nat, child: nat)
    requires root in roots && MisplacedSlot(page) != page / 512 && Slot(t1, root, 2, page / 512) == ZERO
    requires Wrote(t1, t2, roots, root, 2, MisplacedSlot(page), PointerTo(child))
    ensures MisplacedPage(page) / 512 == MisplacedSlot(page) && MisplacedPage(page) % 512 == page % 512
    ensures Slot(t2, root, 2, MisplacedSlot(page)) == PointerTo(child) && Slot(t2, root, 2, page / 512) == ZERO
    ensures Slot(t2, root, 1, MisplacedPage(page)) == ZERO
  {
    var m, w, e := MisplacedSlot(page), MisplacedPage(page), PointerTo(child);
    Quotient(w, 512, m, page % 512);
    UpDigits(w);
    assert Slot(t2, root, 2, m) == Patched(t1, root, 2, m, e, root, 2, m);
    assert Slot(t2, root, 2, page / 512) == Patched(t1, root, 2, m, e, root, 2, page / 512);
    assert Slot(t2, root, 1, w) == Patched(t1, root, 2, m, e, root, 1, w);
  }

  /** What the source reads for the last table, and where it links a new one. */
  lemma LastReads(t: Tables, nodes: map<nat, Node>, roots: set<nat>, root: nat, page: nat, table: seq<nat>,
                  index: seq<nat>)
    requires Tree(t, nodes, roots) && root in roots && At(t, table, index, 2, page / 512) && table[3] == root
    ensures index[1] < 512 && table[1] in t && t[table[1]][index[1]] == Slot(t, root, 2, page / 512)
    ensures index[2] == MisplacedSlot(page) % 512 && TableAt(t, root, 2, table[1], MisplacedSlot(page) / 512)
    ensures var e := Slot(t, root, 2, page / 512);
            e.address == 0 ==> e == ZERO || e.size
  {
    AtSlot(t, table, index, 2, page / 512);
    MisplacedDigits(page);
    SlotHome(t, nodes, roots, root, 2, page / 512);
  }

  /** The last table down: found or linked. */
  ghost predicate LastFound(t0: Tables, t: Tables, roots: set<nat>, root: nat, page: nat, flags: Flags,
                            table: seq<nat>, index: seq<nat>, child: nat)
    requires |table| == |index| == 4
  {
    var level := TargetLevel(t0, root, page, flags);
    if Misplaced(t0, root, page, flags) then Aside(t0, t, roots, root, page, table[0 := child], index[0 := page % 512])
    else Located(t0, t, roots, root, level, SlotOf(page, level), table[0 := child], index[0 := page % 512])
  }

  lemma LastLinked(t0: Tables, t1: Tables, t2: Tables, nodes: map<nat, Node>, roots: set<nat>, root: nat, page: nat,
                   flags: Flags, table: seq<nat>, index: seq<nat>, child: nat)
    requires root in roots && Tree(t1, nodes, roots) && !flags.huge1G && !flags.huge2M
    requires Located(t0, t1, roots, root, 2, page / 512, table, index)
    requires var e := Slot(t1, root, 2, page / 512);
             if e != ZERO then t2 == t1 && child == e.address
             else
               && Wrote(t1, t2, roots, root, 2, MisplacedSlot(page), PointerTo(child))
               && child in t2 && t1.Keys <= t2.Keys
    ensures LastFound(t0, t2, roots, root, page, flags, table, index, child)
  {
    MisplacedDigits(page);
    LocatedSlot(t0, t1, roots, root, 2, page / 512, table, index);
    if Misplaced(t0, root, page, flags) {
      LastLevelAside(t0, t1, t2, nodes, roots, root, page, flags, table, index, child);
    } else {
      LastLevel(t0, t1, t2, nodes, roots, root, page, flags, table, index, child);
    }
  }

  lemma LastIndexed(t0: Tables, t: Tables, roots: set<nat>, root: nat, address: nat, flags: Flags, table: seq<nat>,
                    index: seq<nat>, child: nat)
    requires |table| == |index| == 4 && !flags.huge1G && !flags.huge2M
    requires LastFound(t0, t, roots, root, PageOf(address), flags, table, index, child)
    ensures Indexed(t0, t, roots, root, address, flags, table[0 := child], index[0 := address / PAGE % 512],
                    if address % PAGE != 0 then Refuses else Succeeds)
  {
    AddressDigits(address);
  }

  // ----- Mapping calls

  /** Pages of a level needed for a byte count: `((bytes - 1) >> shift) + 1`, with unsigned wrap-around. */
  function PageCount(bytes: nat, level: nat): nat
    requires 1 <= level <= 3
  {
    (bytes + 0xFFFF_FFFF_FFFF_FFFF) % 0x1_0000_0000_0000_0000 / LeafBytes(level, 1) + 1
  }

  /** The page size a mapping call at slot `n` of `level` takes: the huge flags, or an existing huge leaf,
      decide. */
  ghost predicate Chooses(t: Tables, root: nat, level: nat, n: nat, flags: Flags) {
    && 1 <= level <= 3
    && (level == 3 ==> flags.huge1G || Slot(t, root, 3, n).size)
    && (level == 2 ==> !flags.huge1G && (flags.huge2M || Slot(t, root, 2, n).size))
    && (level == 1 ==> !flags.huge1G && !flags.huge2M)
  }

  /** `used_virtual_pages += pages`, in 64-bit arithmetic. */
  function AddPages(used: nat, pages: nat): nat {
    (used + pages) % 0x1_0000_0000_0000_0000
  }

  /** used_virtual_pages after a mapping call: only a call that returns success counts its pages. */
  predicate Counted(used: nat, used': nat, level: nat, count: nat, r: Outcome) {
    r.Strays? || used' == if r.Succeeds? then AddPages(used, LeafPages(level, count)) else used
  }

  /** When a mapping call writes nothing. */
  ghost predicate MapRefused(t: Tables, root: nat, level: nat, n: nat, address: nat, bytes: nat, flags: Flags,
                             hugePages: bool)
    requires 1 <= level <= 3
  {
    || bytes == 0
    || (level == 3 && !hugePages)
    || address % LeafBytes(level, 1) != 0
    || (Slot(t, root, level, n) != ZERO && !(level > 1 && flags.replace))
  }

  /** A cursor at the start of a run: in a misplaced table the first slot is as empty as the one meant. */
  ghost predicate Begins(t: Tables, root: nat, level: nat, n: nat, w: nat, table: seq<nat>, index: seq<nat>) {
    && 1 <= level <= 3 && Stands(t, table, index, level, n, w) && table[3] == root
    && (w != n ==> Slot(t, root, 2, n / 512) == ZERO && Slot(t, root, 1, w) == ZERO)
  }

  /** The entries the dispatch reads are the slots of the cursor's path. */
  lemma DispatchLevel(t: Tables, nodes: map<nat, Node>, roots: set<nat>, root: nat, level: nat, n: nat, w: nat,
                      flags: Flags, table: seq<nat>, index: seq<nat>)
    requires Tree(t, nodes, roots) && root in roots && Chooses(t, root, level, n, flags)
    requires Begins(t, root, level, n, w, table, index)
    ensures |table| == |index| == 4
    ensures index[level - 1] < 512 && table[level - 1] in t && t[table[level - 1]][index[level - 1]] ==
              Slot(t, root, level, n)
    ensures index[2] < 512 && table[2] in t
    ensures (t[table[2]][index[2]].size || flags.huge1G) <==> level == 3
    ensures level < 3 ==> index[1] < 512 && table[1] in t && ((t[table[1]][index[1]].size || flags.huge2M) <==>
                                                                level == 2)
  {
    StandsAt(t, table, index, level, n, w);
    AtSlot(t, table, AsideIndex(index, n, w), level, w);
    if level < 3 {
      AtSlot(t, table, index, level + 1, n / 512);
    }
    if level < 2 {
      AtSlot(t, table, index, level + 2, n / 512 / 512);
    }
  }

  /** What mapping at an address demands of the tree: no larger leaf covers the pages of the run or the slot
      after it, which the cursor is left on. */
  ghost predicate Mappable(t: Tables, root: nat, address: nat, bytes: nat, flags: Flags) {
    var page := PageOf(address);
    var level := TargetLevel(t, root, page, flags);
    && Indexable(t, root, page, flags)
    && forall m | SlotOf(page, level) < m <= SlotOf(page, level) + PageCount(bytes, level) ::
          NoLeafAbove(t, root, level, m)
  }

  /** No leaf larger than the page size asked for covers the page; a 2 MiB leaf met by a 4 KiB call decides the
      page size instead, unless it maps physical address 0 and so reads as a missing table. */
  ghost predicate Indexable(t: Tables, root: nat, page: nat, flags: Flags) {
    && (!flags.huge1G ==> !Slot(t, root, 3, page / 512 / 512).size)
    && (!flags.huge1G && !flags.huge2M ==> Slot(t, root, 2, page / 512).size ==>
          Slot(t, root, 2, page / 512).address != 0)
  }

  /** What becomes of a page when a run of pages goes through a misplaced table: it gets leaf `i` of the run, or
      loses its mapping, or keeps it. */
  datatype Fate = Gets(i: nat) | Loses | Keeps

  /** `count` pages are mapped at `page`. From the next 2 MiB boundary on the pages get the leaves meant for them;
      the leaves before it go to the same places in the 2 MiB of the misplaced slot, whose other pages lose their
      mapping. */
  function FateOf(page: nat, count: nat, q: nat): (fate: Fate)
    ensures fate.Gets? ==> fate.i < count
  {
    var first := MisplacedPage(page);
    if page + ToCarry(page) <= q < page + count then Gets(q - page)
    else if first <= q < first + count && q - first < ToCarry(page) then Gets(q - first)
    else if q / 512 == MisplacedSlot(page) then Loses
    else Keeps
  }

  /** Where page `q` lies after `leaves` were mapped at `page` through a misplaced table; `before` is where it was. */
  function AsideFrame(before: Option<nat>, page: nat, leaves: seq<Entry>, q: nat): Option<nat> {
    match FateOf(page, |leaves|, q)
    case Gets(i) => Some(PhysicalBits(leaves[i].address))
    case Loses => None
    case Keeps => before
  }

  ghost function AsideTo(t0: Tables, root: nat, page: nat, leaves: seq<Entry>, r: nat, q: nat): Option<nat> {
    if r == root then AsideFrame(Lookup(t0, r, q), page, leaves, q) else Lookup(t0, r, q)
  }

  ghost predicate AsideRemapped(t0: Tables, t: Tables, roots: set<nat>, root: nat, page: nat, leaves: seq<Entry>) {
    forall r: nat, q: nat | r in roots :: Lookup(t, r, q) == AsideTo(t0, root, page, leaves, r, q)
  }

  /** What a call that mapped `leaves` at a page did. */
  ghost predicate RunMapped(t0: Tables, t: Tables, roots: set<nat>, root: nat, page: nat, flags: Flags,
                            leaves: seq<Entry>)
  {
    var level := TargetLevel(t0, root, page, flags);
    if Misplaced(t0, root, page, flags) then AsideRemapped(t0, t, roots, root, page, leaves)
    else Filled(t0, t, roots, root, level, SlotOf(page, level), leaves)
  }

  /** How a call that maps `leaves` at an address ends, and what it did; `refused` says when it writes no leaf. */
  ghost predicate LeavesMapped(t0: Tables, t: Tables, roots: set<nat>, root: nat, address: nat, bytes: nat,
                               flags: Flags,
                               refused: bool, leaves: seq<Entry>, r: Outcome)
  {
    match r
    case Succeeds => Succeeded(t0, t, roots, root, address, bytes, flags, refused, leaves)
    case Overruns => RanOver(t0, t, roots, root, address, bytes, flags, refused, leaves)
    case Refuses => refused && NothingMapped(t0, t, roots, root, PageOf(address), flags)
    case Strays => Strayed(t0, t, roots, root, address, bytes, flags, refused, leaves)
    case Spins => true
  }

  /** The last leaf of such a call went to the last slot of the address space. */
  ghost predicate RanOver(t0: Tables, t: Tables, roots: set<nat>, root: nat, address: nat, bytes: nat, flags: Flags,
                          refused: bool, leaves: seq<Entry>)
  {
    var page := PageOf(address);
    var level := TargetLevel(t0, root, page, flags);
    var n := SlotOf(page, level);
    && !refused && |leaves| <= PageCount(bytes, level) && n + |leaves| == Slots(level)
    && NoStray(t0, root, level, n, |leaves|) && RunMapped(t0, t, roots, root, page, flags, leaves)
  }

  /** Its next leaf would go through the pointer of an existing level-3 table with the flag bits left in. */
  ghost predicate Strayed(t0: Tables, t: Tables, roots: set<nat>, root: nat, address: nat, bytes: nat, flags: Flags,
                          refused: bool, leaves: seq<Entry>)
  {
    var page := PageOf(address);
    var level := TargetLevel(t0, root, page, flags);
    var n := SlotOf(page, level);
    && !refused && |leaves| < PageCount(bytes, level)
    && NoStray(t0, root, level, n, |leaves|) && !NoStray(t0, root, level, n, |leaves| + 1)
    && RunMapped(t0, t, roots, root, page, flags, leaves)
  }

  /** Such a call succeeded. The slot after a run that is where it belongs lies in a table. */
  ghost predicate Succeeded(t0: Tables, t: Tables, roots: set<nat>, root: nat, address: nat, bytes: nat, flags: Flags,
                            refused: bool, leaves: seq<Entry>)
  {
    var page := PageOf(address);
    var level := TargetLevel(t0, root, page, flags);
    var n := SlotOf(page, level);
    && !refused && |leaves| == PageCount(bytes, level) && n + |leaves| < Slots(level)
    && NoStray(t0, root, level, n, |leaves|) && RunMapped(t0, t, roots, root, page, flags, leaves)
    && (!Misplaced(t0, root, page, flags) ==> Slot(t, root, level + 1, (n + |leaves|) / 512) != ZERO)
  }

  /** When paging_map_at writes no leaf: the source maps free frames with 4 KiB pages only. */
  ghost predicate FramesRefused(t: Tables, root: nat, address: nat, bytes: nat, flags: Flags) {
    var page := PageOf(address);
    var level := TargetLevel(t, root, page, flags);
    !Aligned(address, flags) || bytes == 0 || level > 1 || Slot(t, root, 1, page) != ZERO
  }

  /** When paging_map_physical_at writes no leaf. */
  ghost predicate MapAtRefused(t: Tables, root: nat, address: nat, physicalAddress: nat, bytes: nat, flags: Flags,
                               hugePages: bool) {
    var page := PageOf(address);
    var level := TargetLevel(t, root, page, flags);
    !Aligned(address, flags) || MapRefused(t, root, level, SlotOf(page, level), physicalAddress, bytes, flags,
                                           hugePages)
  }

  /** How mapping physical memory at an address ends, and what it did. */
  ghost predicate MapResult(t0: Tables, t: Tables, roots: set<nat>, root: nat, address: nat, physicalAddress: nat,
                            bytes: nat,
                            flags: Flags, hugePages: bool, count: nat, r: Outcome)
  {
    LeavesMapped(t0, t, roots, root, address, bytes, flags,
                 MapAtRefused(t0, root, address, physicalAddress, bytes, flags, hugePages),
                 RunLeaves(physicalAddress, TargetLevel(t0, root, PageOf(address), flags), flags, count), r)
  }

  /** The cursor an address resolves to is ready for the mapping loops. */
  lemma IndexedReady(t0: Tables, t1: Tables, roots: set<nat>, root: nat, address: nat, bytes: nat, flags: Flags,
                     table: seq<nat>, index: seq<nat>)
    requires root in roots && Mappable(t0, root, address, bytes, flags)
    requires Indexed(t0, t1, roots, root, address, flags, table, index, Succeeds)
    ensures var page := PageOf(address);
            var level := TargetLevel(t0, root, page, flags);
            var n := SlotOf(page, level);
            && Chooses(t1, root, level, n, flags)
            && Begins(t1, root, level, n, StartSlot(t0, root, page, flags), table, index)
            && (forall m | n < m <= n + PageCount(bytes, level) :: NoLeafAbove(t1, root, level, m))
            && Slot(t1, root, level, n) == Slot(t0, root, level, n)
  {
    hide Slot;
    var page := PageOf(address);
    var level := TargetLevel(t0, root, page, flags);
    var n := SlotOf(page, level);
    UpDigits(page);
    if Misplaced(t0, root, page, flags) {
      AsideReady(t0, t1, roots, root, page, PageCount(bytes, 1), table, index);
    } else {
      LocatedSlot(t0, t1, roots, root, level, n, table, index);
      forall m | n < m <= n + PageCount(bytes, level)
        ensures NoLeafAbove(t1, root, level, m)
      {
        FilledNoLeafAbove(t0, t1, roots, root, level, n, [], m);
      }
    }
  }

  lemma NoLeafStays(t0: Tables, t1: Tables, root: nat, m: nat)
    requires NoNewLeaf(t0, t1, root) && NoLeafAbove(t0, root, 1, m)
    ensures NoLeafAbove(t1, root, 1, m)
  {
    var up, top := Slot(t1, root, 2, m / 512), Slot(t1, root, 3, m / 512 / 512);
    assert !up.size;
    assert !top.size;
  }

  lemma AsideReady(t0: Tables, t1: Tables, roots: set<nat>, root: nat, page: nat, pages: nat, table: seq<nat>,
                   index: seq<nat>)
    requires root in roots && Aside(t0, t1, roots, root, page, table, index) && Slot(t0, root, 2, page / 512) == ZERO
    requires forall m | page < m <= page + pages :: NoLeafAbove(t0, root, 1, m)
    ensures Begins(t1, root, 1, page, MisplacedPage(page), table, index)
    ensures forall m | page < m <= page + pages :: NoLeafAbove(t1, root, 1, m)
    ensures Slot(t1, root, 1, page) == Slot(t0, root, 1, page) == ZERO
  {
    forall m | page < m <= page + pages
      ensures NoLeafAbove(t1, root, 1, m)
    {
      NoLeafStays(t0, t1, root, m);
    }
  }

  lemma GrowthNoStray(t0: Tables, t1: Tables, roots: set<nat>, root: nat, level: nat, n: nat, count: nat)
    requires root in roots && 1 <= level <= 3 && Filled(t0, t1, roots, root, level, n, [])
    ensures NoStray(t0, root, level, n, count) <==> NoStray(t1, root, level, n, count)
  {
    if level == 3 {
      forall m | n < m < n + count
        ensures StrayAt(t0, root, level, m) <==> StrayAt(t1, root, level, m)
      {
        assert FilledAt(t0, t1, root, level, n, [], root, 4, m / 512);
        assert Up(n, 1) == n / 512;
      }
    }
  }

  /** The slot after a run lies in a table that exists. */
  lemma RunHeld(t0: Tables, t: Tables, roots: set<nat>, root: nat, level: nat, s: nat, leaves: seq<Entry>,
                table: seq<nat>, index: seq<nat>)
    requires root in roots && 1 <= level <= 3 && Running(t0, t, roots, root, level, s, leaves, table, index)
    ensures Slot(t, root, level + 1, (s + |leaves|) / 512) != ZERO
  {
    if |leaves| > 0 && StrayAt(t0, root, level, s + |leaves|) {
      assert FilledAt(t0, t, root, level, s, leaves, root, 4, (s + |leaves|) / 512);
    }
  }

  /** A run that started where it belongs. */
  lemma PlacedDone(t0: Tables, t1: Tables, t2: Tables, roots: set<nat>, root: nat, level: nat, n: nat,
                   leaves: seq<Entry>, table: seq<nat>, index: seq<nat>, r: Outcome)
    requires root in roots && 1 <= level <= 3 && Filled(t0, t1, roots, root, level, n, [])
    requires RunState(t1, t2, roots, root, level, n, leaves, table, index, r) && !r.Spins?
    ensures Filled(t0, t2, roots, root, level, n, leaves) && NoStray(t0, root, level, n, |leaves|)
    ensures r.Strays? ==> !NoStray(t0, root, level, n, |leaves| + 1)
    ensures r.Succeeds? ==> Slot(t2, root, level + 1, (n + |leaves|) / 512) != ZERO
  {
    FilledAfterGrowth(t0, t1, t2, roots, root, level, n, leaves);
    GrowthNoStray(t0, t1, roots, root, level, n, |leaves|);
    if r.Succeeds? {
      RunHeld(t1, t2, roots, root, level, n, leaves, table, index);
    } else if r.Strays? {
      GrowthNoStray(t0, t1, roots, root, level, n, |leaves| + 1);
    }
  }

  // ----- What a run through a misplaced table leaves behind

  /** The leaves of a run up to its first carry. */
  function BeforeCarry(page: nat, leaves: seq<Entry>): seq<Entry> {
    if |leaves| < ToCarry(page) then leaves else leaves[..ToCarry(page)]
  }

  function AfterCarry(page: nat, leaves: seq<Entry>): seq<Entry> {
    if |leaves| < ToCarry(page) then [] else leaves[ToCarry(page)..]
  }

  /** The tables were emptied below the misplaced slot, then filled from it, then filled where meant. */
  lemma AsidePage(t0: Tables, t1: Tables, turned: Tables, t2: Tables, roots: set<nat>, root: nat, page: nat,
                  leaves: seq<Entry>, r: nat, q: nat)
    requires r in roots && Emptied(t0, t1, roots, root, MisplacedSlot(page))
    requires Remapped(t1, turned, roots, root, 1, MisplacedPage(page), BeforeCarry(page, leaves))
    requires Remapped(turned, t2, roots, root, 1, page + ToCarry(page), AfterCarry(page, leaves))
    requires forall e | e in leaves :: Leaf(e, 1)
    ensures Lookup(t2, r, q) == AsideTo(t0, root, page, leaves, r, q)
  {
    hide Lookup;
    assert Lookup(t2, r, q) == RemappedTo(turned, root, 1, page + ToCarry(page), AfterCarry(page, leaves), r, q);
    assert Lookup(turned, r, q) == RemappedTo(t1, root, 1, MisplacedPage(page), BeforeCarry(page, leaves), r, q);
    LeafRun(turned, root, page + ToCarry(page), AfterCarry(page, leaves), r, q);
    LeafRun(t1, root, MisplacedPage(page), BeforeCarry(page, leaves), r, q);
  }

  /** A run of 4 KiB leaves, page by page. */
  lemma LeafRun(t0: Tables, root: nat, s: nat, leaves: seq<Entry>, r: nat, q: nat)
    requires forall e | e in leaves :: Leaf(e, 1)
    ensures RemappedTo(t0, root, 1, s, leaves, r, q) ==
            if r == root && s <= q < s + |leaves| then Some(PhysicalBits(leaves[q - s].address)) else Lookup(t0, r, q)
  {
    assert Up(q, 0) == q && q % Span(1) == 0;
    assert forall i | 0 <= i < |leaves| :: leaves[i] in leaves;
  }

  lemma NoLeafAside(t: Tables, root: nat, table: seq<nat>, index: seq<nat>, n: nat, w: nat, i: nat)
    requires Stands(t, table, index, 1, n, w) && w != n && table[3] == root && i < ToCarry(n)
    ensures NoLeafAbove(t, root, 1, w + i)
  {
    Quotient(w + i, 512, w / 512, w % 512 + i);
  }

  lemma AsideDone(t0: Tables, t1: Tables, turned: Tables, t2: Tables, roots: set<nat>, root: nat, page: nat,
                  leaves: seq<Entry>, table1: seq<nat>, index1: seq<nat>, table: seq<nat>, index: seq<nat>, r: Outcome)
    requires root in roots && Aside(t0, t1, roots, root, page, table1, index1) && MisplacedSlot(page) != page / 512
    requires AsideState(t1, turned, t2, roots, root, page, MisplacedPage(page), leaves, table, index, r) && !r.Spins?
    requires forall e | e in leaves :: Leaf(e, 1)
    requires forall n | page < n <= page + |leaves| :: NoLeafAbove(t1, root, 1, n)
    ensures AsideRemapped(t0, t2, roots, root, page, leaves)
  {
    var middle := if |leaves| < ToCarry(page) then t2 else turned;
    NothingFilled(t2, roots, root, 1, page + ToCarry(page));
    RunBeforeCarry(t1, middle, roots, root, page, BeforeCarry(page, leaves), table1, index1);
    RunAfterCarry(t1, middle, t2, roots, root, page, leaves);
    forall r: nat, q: nat | r in roots
      ensures Lookup(t2, r, q) == AsideTo(t0, root, page, leaves, r, q)
    {
      AsidePage(t0, t1, middle, t2, roots, root, page, leaves, r, q);
    }
  }

  lemma RunBeforeCarry(t1: Tables, t2: Tables, roots: set<nat>, root: nat, page: nat, leaves: seq<Entry>,
                       table1: seq<nat>, index1: seq<nat>)
    requires root in roots && MisplacedSlot(page) != page / 512 && |leaves| <= ToCarry(page)
    requires Stands(t1, table1, index1, 1, page, MisplacedPage(page)) && table1[3] == root
    requires Filled(t1, t2, roots, root, 1, MisplacedPage(page), leaves) && forall e | e in leaves :: Leaf(e, 1)
    ensures Remapped(t1, t2, roots, root, 1, MisplacedPage(page), leaves)
  {
    var w := MisplacedPage(page);
    Quotient(w, 512, MisplacedSlot(page), page % 512);
    forall n: nat | w <= n < w + |leaves|
      ensures NoLeafAbove(t1, root, 1, n)
    {
      NoLeafAside(t1, root, table1, index1, page, w, n - w);
    }
    FilledIsRemapped(t1, t2, roots, root, 1, w, leaves);
  }

  lemma RunAfterCarry(t1: Tables, turned: Tables, t2: Tables, roots: set<nat>, root: nat, page: nat, leaves: seq<Entry>)
    requires root in roots && Filled(t1, turned, roots, root, 1, MisplacedPage(page), BeforeCarry(page, leaves))
    requires Filled(turned, t2, roots, root, 1, page + ToCarry(page), AfterCarry(page, leaves))
    requires forall e | e in leaves :: Leaf(e, 1)
    requires forall n | page < n <= page + |leaves| :: NoLeafAbove(t1, root, 1, n)
    ensures Remapped(turned, t2, roots, root, 1, page + ToCarry(page), AfterCarry(page, leaves))
  {
    var s, after := page + ToCarry(page), AfterCarry(page, leaves);
    forall n: nat | s <= n < s + |after|
      ensures NoLeafAbove(turned, root, 1, n)
    {
      FilledNoLeafAbove(t1, turned, roots, root, 1, MisplacedPage(page), BeforeCarry(page, leaves), n);
    }
    FilledIsRemapped(turned, t2, roots, root, 1, s, after);
  }

  // ----- The end of a mapping call

  lemma MapDone(t0: Tables, t1: Tables, t2: Tables, roots: set<nat>, root: nat, address: nat, bytes: nat,
                flags: Flags, refused: bool, leaves: seq<Entry>,
                table1: seq<nat>, index1: seq<nat>, table: seq<nat>, index: seq<nat>, r: Outcome)
    requires root in roots && Mappable(t0, root, address, bytes, flags)
    requires Indexed(t0, t1, roots, root, address, flags, table1, index1, Succeeds)
    requires var page := PageOf(address);
             var level := TargetLevel(t0, root, page, flags);
             && (r.Refuses? <==> refused) && (r.Refuses? ==> t2 == t1)
             && |leaves| <= PageCount(bytes, level) && (r.Succeeds? ==> |leaves| == PageCount(bytes, level))
             && (r.Strays? ==> |leaves| < PageCount(bytes, level))
                 && (!r.Spins? ==> forall e | e in leaves :: Leaf(e, level))
             && (!r.Refuses? ==>
                  Mapping(t1, t2, roots, root, level, SlotOf(page, level), StartSlot(t0, root, page, flags), leaves,
                          table, index, r))
    ensures LeavesMapped(t0, t2, roots, root, address, bytes, flags, refused, leaves, r)
  {
    hide Lookup, Mapping, Filled, Slot, AsideRemapped, Emptied, At, Stands;
    var page := PageOf(address);
    var level := TargetLevel(t0, root, page, flags);
    if r.Succeeds? || r.Overruns? || r.Strays? {
      RunDone(t0, t1, t2, roots, root, address, bytes, flags, leaves, table1, index1, table, index, r);
    }
  }

  /** The leaves are written, wherever the run started. */
  lemma RunDone(t0: Tables, t1: Tables, t2: Tables, roots: set<nat>, root: nat, address: nat, bytes: nat, flags: Flags,
                leaves: seq<Entry>, table1: seq<nat>, index1: seq<nat>, table: seq<nat>, index: seq<nat>, r: Outcome)
    requires root in roots && Mappable(t0, root, address, bytes, flags)
    requires Indexed(t0, t1, roots, root, address, flags, table1, index1, Succeeds) && !r.Spins?
    requires var page := PageOf(address);
             var level := TargetLevel(t0, root, page, flags);
             && |leaves| <= PageCount(bytes, level) && (forall e | e in leaves :: Leaf(e, level))
             && Mapping(t1, t2, roots, root, level, SlotOf(page, level), StartSlot(t0, root, page, flags), leaves,
                        table, index, r)
    ensures var page := PageOf(address);
            var level := TargetLevel(t0, root, page, flags);
            var n := SlotOf(page, level);
            && RunMapped(t0, t2, roots, root, page, flags, leaves) && NoStray(t0, root, level, n, |leaves|)
            && (r.Strays? ==> !NoStray(t0, root, level, n, |leaves| + 1))
            && (r.Overruns? ==> n + |leaves| == Slots(level)) && (r.Succeeds? ==> n + |leaves| < Slots(level))
            && (r.Succeeds? && !Misplaced(t0, root, page, flags) ==>
                  Slot(t2, root, level + 1, (n + |leaves|) / 512) != ZERO)
  {
    hide Lookup, Mapping, Filled, Slot, At, Stands;
    var page := PageOf(address);
    var level := TargetLevel(t0, root, page, flags);
    UpDigits(page);
    if Misplaced(t0, root, page, flags) {
      AsideMapped(t0, t1, t2, roots, root, page, PageCount(bytes, 1), leaves, table1, index1, table, index, r);
    } else {
      MappingEnds(t1, t2, roots, root, level, SlotOf(page, level), SlotOf(page, level), leaves, table, index, r);
      PlacedDone(t0, t1, t2, roots, root, level, SlotOf(page, level), leaves, table, index, r);
    }
  }

  lemma AsideMapped(t0: Tables, t1: Tables, t2: Tables, roots: set<nat>, root: nat, page: nat, pages: nat,
                    leaves: seq<Entry>,
                    table1: seq<nat>, index1: seq<nat>, table: seq<nat>, index: seq<nat>, r: Outcome)
    requires root in roots && Aside(t0, t1, roots, root, page, table1, index1) && MisplacedSlot(page) != page / 512
    requires Slot(t0, root, 2, page / 512) == ZERO && |leaves| <= pages
    requires forall m | page < m <= page + pages :: NoLeafAbove(t0, root, 1, m)
    requires Mapping(t1, t2, roots, root, 1, page, MisplacedPage(page), leaves, table, index, r) && !r.Spins?
    requires forall e | e in leaves :: Leaf(e, 1)
    ensures r.Succeeds? || (r.Overruns? && page + |leaves| == Slots(1))
    ensures r.Succeeds? ==> page + |leaves| < Slots(1)
    ensures AsideRemapped(t0, t2, roots, root, page, leaves) && NoStray(t0, root, 1, page, |leaves|)
  {
    AsideReady(t0, t1, roots, root, page, pages, table1, index1);
    var turned := AsideEnds(t1, t2, roots, root, page, leaves, table, index, r);
    AsideDone(t0, t1, turned, t2, roots, root, page, leaves, table1, index1, table, index, r);
  }

  lemma AsideEnds(t1: Tables, t2: Tables, roots: set<nat>, root: nat, page: nat, leaves: seq<Entry>,
                  table: seq<nat>, index: seq<nat>, r: Outcome) returns (turned: Tables)
    requires MisplacedSlot(page) != page / 512
    requires Mapping(t1, t2, roots, root, 1, page, MisplacedPage(page), leaves, table, index, r) && !r.Spins?
    ensures AsideState(t1, turned, t2, roots, root, page, MisplacedPage(page), leaves, table, index, r)
    ensures r.Succeeds? || (r.Overruns? && page + |leaves| == Slots(1))
    ensures r.Succeeds? ==> page + |leaves| < Slots(1)
  {
    turned :| MappingVia(t1, turned, t2, roots, root, 1, page, MisplacedPage(page), leaves, table, index, r);
    Quotient(MisplacedPage(page), 512, MisplacedSlot(page), page % 512);
    if |leaves| < ToCarry(page) {
      AtBound(t2, table, index, 2, (page + |leaves|) / 512);
    }
  }

  lemma NotMapped(t0: Tables, t1: Tables, roots: set<nat>, root: nat, address: nat, physicalAddress: nat, bytes: nat,
                  flags: Flags, hugePages: bool, table: seq<nat>, index: seq<nat>, r: Outcome)
    requires Indexed(t0, t1, roots, root, address, flags, table, index, r) && !r.Succeeds?
    ensures MapResult(t0, t1, roots, root, address, physicalAddress, bytes, flags, hugePages, 0, r)
  {
    MapNotStarted(t0, t1, roots, root, address, bytes, flags,
                  MapAtRefused(t0, root, address, physicalAddress, bytes, flags, hugePages),
                  RunLeaves(physicalAddress, TargetLevel(t0, root, PageOf(address), flags), flags, 0), table, index, r);
  }

  lemma MapNotStarted(t0: Tables, t1: Tables, roots: set<nat>, root: nat, address: nat, bytes: nat,
                      flags: Flags, refused: bool, leaves: seq<Entry>, table: seq<nat>, index: seq<nat>, r: Outcome)
    requires Indexed(t0, t1, roots, root, address, flags, table, index, r) && !r.Succeeds?
    requires !Aligned(address, flags) ==> refused
    ensures LeavesMapped(t0, t1, roots, root, address, bytes, flags, refused, leaves, r)
  {}
}
