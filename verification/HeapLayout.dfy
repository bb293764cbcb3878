/** The kernel heap as a list of blocks in address order: where first fit puts a block, and what any sequence of
    calls keeps (src/common/memory.c). */
module HeapLayout {

  /** Bytes of a chunk header, struct memory_chunk. */
  const HEADER: nat := 24

  /** A chunk: its header lies at `address`, its `size` bytes of payload right after. */
  datatype Block = Block(address: nat, size: nat)

  function End(b: Block): nat {
    b.address + HEADER + b.size
  }

  /** `ALIGN_TO_NEXT(bytes, sizeof(void *))`. */
  function Align(bytes: int): int {
    (bytes - 1) / 8 * 8 + 8
  }

  lemma AlignRoundsUp(bytes: int)
    ensures bytes <= Align(bytes) < bytes + 8 && Align(bytes) % 8 == 0
    ensures Align(Align(bytes)) == Align(bytes)
  {
    var q, r := (bytes - 1) / 8, (bytes - 1) % 8;
    assert bytes == 8 * q + r + 1 && Align(bytes) == 8 * (q + 1);
  }

  /** Strictly ordered by address, and no extent reaches the next header. */
  ghost predicate Ordered(blocks: seq<Block>) {
    forall i {:trigger End(blocks[i])} | 0 <= i < |blocks| - 1 :: End(blocks[i]) <= blocks[i + 1].address
  }

  /** The extents of any two chunks are disjoint. */
  lemma {:induction false} Disjoint(blocks: seq<Block>, i: nat, j: nat)
    requires Ordered(blocks) && i < j < |blocks|
    ensures End(blocks[i]) <= blocks[j].address && blocks[i].address < blocks[j].address
    decreases j - i
  {
    if i + 1 < j {
      Disjoint(blocks, i, j - 1);
      assert End(blocks[j - 1]) <= blocks[j].address;
    }
  }

  /** The test of memory_allocate: the chunk is the last, or the gap up to the next holds two headers and the
      bytes with one byte to spare. */
  predicate Fits(blocks: seq<Block>, i: nat, bytes: nat)
    requires i < |blocks|
  {
    i + 1 == |blocks| || blocks[i + 1].address - (blocks[i].address + blocks[i].size) > bytes + 2 * HEADER
  }

  /** First fit: the first chunk whose gap passes the test. */
  ghost predicate FirstFit(blocks: seq<Block>, i: nat, bytes: nat) {
    i < |blocks| && Fits(blocks, i, bytes) && forall j | 0 <= j < i :: !Fits(blocks, j, bytes)
  }

  /** In addresses: a chunk with a successor is passed over if and only if a block right behind it would reach the
      successor's header, and the new block goes to the lowest place where it ends strictly below the next header, or
      behind the last chunk. */
  lemma FirstFitIs(blocks: seq<Block>, k: nat, bytes: nat)
    ensures forall j: nat | j + 1 < |blocks| ::
              !Fits(blocks, j, bytes) <==>
              blocks[j].address + 24 + blocks[j].size + 24 + bytes >= blocks[j + 1].address
    ensures FirstFit(blocks, k, bytes) <==>
            && k < |blocks|
            && (k + 1 < |blocks| ==> blocks[k].address + 24 + blocks[k].size + 24 + bytes < blocks[k + 1].address)
            && forall j: nat | j < k ::
                 blocks[j].address + 24 + blocks[j].size + 24 + bytes >= blocks[j + 1].address
  {}

  function Placed(blocks: seq<Block>, i: nat, bytes: nat): seq<Block>
    requires i < |blocks|
  {
    blocks[..i + 1] + [Block(End(blocks[i]), bytes)] + blocks[i + 1..]
  }

  function Removed(blocks: seq<Block>, i: nat): seq<Block>
    requires i < |blocks|
  {
    blocks[..i] + blocks[i + 1..]
  }

  function Resized(blocks: seq<Block>, i: nat, bytes: nat): seq<Block>
    requires i < |blocks|
  {
    blocks[i := Block(blocks[i].address, bytes)]
  }

  /** A block placed where the test passes never reaches its successor: a byte is left over. */
  lemma PlacedOrdered(blocks: seq<Block>, i: nat, bytes: nat)
    requires Ordered(blocks) && i < |blocks| && Fits(blocks, i, bytes)
    ensures Ordered(Placed(blocks, i, bytes))
    ensures i + 1 < |blocks| ==> End(Block(End(blocks[i]), bytes)) < blocks[i + 1].address
  {
    var blocks' := Placed(blocks, i, bytes);
    forall k | 0 <= k < |blocks'| - 1
      ensures End(blocks'[k]) <= blocks'[k + 1].address
    {
      if k > i + 1 {
        assert blocks'[k] == blocks[k - 1] && blocks'[k + 1] == blocks[k];
      }
    }
  }

  lemma RemovedOrdered(blocks: seq<Block>, i: nat)
    requires Ordered(blocks) && i < |blocks|
    ensures Ordered(Removed(blocks, i))
  {
    var blocks' := Removed(blocks, i);
    forall k | 0 <= k < |blocks'| - 1
      ensures End(blocks'[k]) <= blocks'[k + 1].address
    {
      if k + 1 == i {
        Disjoint(blocks, k, i + 1);
      } else if k >= i {
        assert blocks'[k] == blocks[k + 1] && blocks'[k + 1] == blocks[k + 2];
      }
    }
  }

  lemma ResizedOrdered(blocks: seq<Block>, bytes: nat)
    requires Ordered(blocks) && blocks != []
    ensures Ordered(Resized(blocks, |blocks| - 1, bytes))
  {}

  /** Removing the block just placed gives the old list back. */
  lemma PlacedThenRemoved(blocks: seq<Block>, i: nat, bytes: nat)
    requires i < |blocks|
    ensures Removed(Placed(blocks, i, bytes), i + 1) == blocks
  {
    assert Placed(blocks, i, bytes)[i + 2..] == blocks[i + 1..];
  }

  /** The place of first fit is unique, and the last chunk always passes: an allocation never fails. */
  lemma {:induction false} FirstFitExists(blocks: seq<Block>, bytes: nat, from: nat) returns (i: nat)
    requires from < |blocks| && forall j | 0 <= j < from :: !Fits(blocks, j, bytes)
    ensures FirstFit(blocks, i, bytes)
    ensures forall k: nat | FirstFit(blocks, k, bytes) :: k == i
    decreases |blocks| - from
  {
    if Fits(blocks, from, bytes) {
      i := from;
    } else {
      i := FirstFitExists(blocks, bytes, from + 1);
    }
  }

  /** `header + header->size >= header->next`, or no next chunk. */
  predicate GrowsInPlace(blocks: seq<Block>, i: nat)
    requires i < |blocks|
  {
    i + 1 == |blocks| || blocks[i].address + blocks[i].size >= blocks[i + 1].address
  }

  /** On an ordered list the test of memory_resize passes for the last chunk and for no other. */
  lemma InPlaceOnlyLast(blocks: seq<Block>, i: nat)
    requires Ordered(blocks) && i < |blocks|
    ensures GrowsInPlace(blocks, i) <==> i + 1 == |blocks|
  {
    if i + 1 < |blocks| {
      Disjoint(blocks, i, i + 1);
    }
  }

  // ----- Runs of calls

  /** A call on the heap; a freed or resized block is named by its place in the list, never the first chunk. */
  datatype Call = Allocate(bytes: nat) | Free(i: nat) | Resize(i: nat, bytes: nat)

  ghost predicate Allocated(blocks: seq<Block>, blocks': seq<Block>, bytes: nat) {
    exists k: nat :: FirstFit(blocks, k, bytes) && blocks' == Placed(blocks, k, bytes)
  }

  /** What a call does to the list. */
  ghost predicate After(blocks: seq<Block>, call: Call, blocks': seq<Block>) {
    match call
    case Allocate(bytes) => Allocated(blocks, blocks', bytes)
    case Free(i) => 0 < i < |blocks| && blocks' == Removed(blocks, i)
    case Resize(i, bytes) =>
      && 0 < i < |blocks|
      && if GrowsInPlace(blocks, i) then blocks' == Resized(blocks, i, bytes)
         else exists k: nat :: MovedTo(blocks, i, bytes, k, blocks')
  }

  /** Block `i` was replaced by a new one after block `k`. */
  ghost predicate MovedTo(blocks: seq<Block>, i: nat, bytes: nat, k: nat, blocks': seq<Block>) {
    && i < |blocks| && FirstFit(blocks, k, bytes)
    && blocks' == Removed(Placed(blocks, k, bytes), if k < i then i + 1 else i)
  }

  /** Where the old and the new block of a move are found before the old one is removed, and the new one after. */
  lemma MovedBlock(blocks: seq<Block>, i: nat, bytes: nat, k: nat)
    requires i < |blocks| && k < |blocks|
    ensures var placed, before := Placed(blocks, k, bytes), if k < i then i + 1 else i;
            && placed[before] == blocks[i]
            && Removed(placed, before)[if k < i then k + 1 else k] == Block(End(blocks[k]), bytes)
  {}

  lemma CallKeepsOrder(blocks: seq<Block>, call: Call, blocks': seq<Block>)
    requires Ordered(blocks) && blocks != [] && After(blocks, call, blocks')
    ensures Ordered(blocks') && blocks' != [] && blocks'[0] == blocks[0]
  {
    match call
    case Allocate(bytes) =>
      var k: nat :| FirstFit(blocks, k, bytes) && blocks' == Placed(blocks, k, bytes);
      PlacedOrdered(blocks, k, bytes);
    case Free(i) =>
      RemovedOrdered(blocks, i);
    case Resize(i, bytes) =>
      InPlaceOnlyLast(blocks, i);
      if i + 1 == |blocks| {
        ResizedOrdered(blocks, bytes);
      } else {
        var k: nat :| MovedTo(blocks, i, bytes, k, blocks');
        PlacedOrdered(blocks, k, bytes);
        RemovedOrdered(Placed(blocks, k, bytes), if k < i then i + 1 else i);
      }
  }

  /** Main result. After any sequence of allocations, frees and resizes the chunks are in strict address order and
      the extents of any two of them are disjoint. */
  lemma {:induction false} RunKeepsOrder(states: seq<seq<Block>>, calls: seq<Call>, k: nat, i: nat, j: nat)
    requires |states| == |calls| + 1 && k < |states| && |states[0]| == 1
    requires forall n | 0 <= n < |calls| :: After(states[n], calls[n], states[n + 1])
    requires i < j < |states[k]|
    ensures states[k][i].address < states[k][j].address && End(states[k][i]) <= states[k][j].address
  {
    RunOrdered(states, calls, k);
    Disjoint(states[k], i, j);
  }

  lemma {:induction false} RunOrdered(states: seq<seq<Block>>, calls: seq<Call>, k: nat)
    requires |states| == |calls| + 1 && k < |states| && |states[0]| == 1
    requires forall n | 0 <= n < |calls| :: After(states[n], calls[n], states[n + 1])
    ensures Ordered(states[k]) && states[k] != []
  {
    if k > 0 {
      RunOrdered(states, calls, k - 1);
      assert After(states[k - 1], calls[k - 1], states[k]);
      CallKeepsOrder(states[k - 1], calls[k - 1], states[k]);
    }
  }
}
