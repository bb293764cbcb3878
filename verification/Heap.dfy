/** The kernel heap: a doubly linked list of chunks threaded through memory (src/common/memory.c). */
module Heap {
  import opened HeapLayout

  /** struct memory_chunk, and the address it lies at. */
  class Chunk {
    const address: nat
    var next: Chunk?
    var previous: Chunk?
    var size: nat

    constructor (address: nat, size: nat, next: Chunk?, previous: Chunk?)
      ensures this.address == address && this.size == size && this.next == next && this.previous == previous
    {
      this.address, this.size, this.next, this.previous := address, size, next, previous;
    }
  }

  ghost predicate Chained(chunks: seq<Chunk>)
    reads chunks
  {
    && (forall i {:trigger chunks[i].next} | 0 <= i < |chunks| :: chunks[i].next == Successor(chunks, i))
    && (forall i {:trigger chunks[i].previous} | 0 <= i < |chunks| :: chunks[i].previous == Predecessor(chunks, i))
  }

  ghost function Successor(chunks: seq<Chunk>, i: nat): Chunk?
    requires i < |chunks|
  {
    if i + 1 < |chunks| then chunks[i + 1] else null
  }

  ghost function Predecessor(chunks: seq<Chunk>, i: nat): Chunk?
    requires i < |chunks|
  {
    if i > 0 then chunks[i - 1] else null
  }

  /** The chunks and the blocks they stand for. */
  ghost predicate Stands(chunks: seq<Chunk>, blocks: seq<Block>)
    reads chunks
  {
    && |blocks| == |chunks|
    && forall i | 0 <= i < |chunks| ::
         chunks[i].address == blocks[i].address && chunks[i].size == blocks[i].size
  }

  /** What the byte at an address reads; memory never written reads 0. */
  function Read(bytes: map<nat, nat>, a: nat): nat {
    if a in bytes then bytes[a] else 0
  }

  /** Nothing outside [lo, hi) changed. */
  ghost predicate SameBut(bytes: map<nat, nat>, bytes': map<nat, nat>, lo: int, hi: int) {
    forall a: nat | !(lo <= a < hi) :: Read(bytes', a) == Read(bytes, a)
  }

  function ByteAt(bytes: map<nat, nat>, base: nat, o: nat): nat {
    Read(bytes, base + o)
  }

  /** Bytes copied upwards from `from` to `to`: all that were not overwritten before their turn. */
  ghost predicate Copied(bytes: map<nat, nat>, bytes': map<nat, nat>, from: nat, to: nat, size: nat, count: nat) {
    && SameBut(bytes, bytes', to, to + count)
    && forall o: nat | o < count && !(to <= from + o < to + size) :: ByteAt(bytes', to, o) == ByteAt(bytes, from, o)
  }

  lemma CopiedOne(bytes0: map<nat, nat>, bytes1: map<nat, nat>, from: nat, to: nat, size: nat, i: nat)
    requires i < size && Copied(bytes0, bytes1, from, to, size, i)
    ensures Copied(bytes0, bytes1[to + i := Read(bytes1, from + i)], from, to, size, i + 1)
  {
    var bytes2 := bytes1[to + i := Read(bytes1, from + i)];
    forall o: nat | o < i + 1 && !(to <= from + o < to + size)
      ensures ByteAt(bytes2, to, o) == ByteAt(bytes0, from, o)
    {
      assert o < i ==> ByteAt(bytes1, to, o) == ByteAt(bytes0, from, o);
    }
  }

  /** Exactly `count` bytes from `address` on hold `value`. */
  ghost predicate Filled(bytes: map<nat, nat>, bytes': map<nat, nat>, address: nat, count: nat, value: nat) {
    forall a: nat :: Read(bytes', a) == if address <= a < address + count then value else Read(bytes, a)
  }

  lemma FilledOne(bytes0: map<nat, nat>, bytes1: map<nat, nat>, address: nat, i: nat, value: nat)
    requires Filled(bytes0, bytes1, address, i, value)
    ensures Filled(bytes0, bytes1[address + i := value], address, i + 1, value)
  {
    var bytes2 := bytes1[address + i := value];
    forall a: nat
      ensures Read(bytes2, a) == if address <= a < address + i + 1 then value else Read(bytes0, a)
    {
      assert Read(bytes1, a) == if address <= a < address + i then value else Read(bytes0, a);
    }
  }

  /** An address of a block's payload. */
  predicate Payload(b: Block, a: nat) {
    b.address + HEADER <= a < End(b)
  }

  /** The payload of every block but `i` is as it was. */
  ghost predicate Undisturbed(blocks: seq<Block>, i: nat, bytes: map<nat, nat>, bytes': map<nat, nat>) {
    forall j: nat, a: nat | j < |blocks| && j != i && Payload(blocks[j], a) :: Read(bytes', a) == Read(bytes, a)
  }

  /** The first `count` bytes at `to` are those that were at `from`. */
  ghost predicate Carried(bytes: map<nat, nat>, bytes': map<nat, nat>, from: nat, to: nat, count: nat) {
    forall o: nat | o < count :: ByteAt(bytes', to, o) == ByteAt(bytes, from, o)
  }

  function Min(a: nat, b: nat): nat {
    if a < b then a else b
  }

  /** A moved block keeps what fits, although the copy may run past its old end into the new chunk; nothing
      else that is live lies where a header or a byte was written. */
  lemma MovePreserves(blocks: seq<Block>, k: nat, size: nat, i: nat,
                      bytes0: map<nat, nat>, bytes1: map<nat, nat>, bytes2: map<nat, nat>)
    requires k < |blocks| && i < |blocks| && Ordered(Placed(blocks, k, size))
    requires var address := End(blocks[k]);
             && SameBut(bytes0, bytes1, address, address + HEADER)
             && Copied(bytes1, bytes2, blocks[i].address + HEADER, address + HEADER, size, size)
    ensures Carried(bytes0, bytes2, blocks[i].address + HEADER, End(blocks[k]) + HEADER, Min(blocks[i].size, size))
    ensures Undisturbed(blocks, i, bytes0, bytes2)
  {
    var from, to := blocks[i].address + HEADER, End(blocks[k]) + HEADER;
    forall j: nat, a: nat | j < |blocks| && Payload(blocks[j], a)
      ensures !(End(blocks[k]) <= a < to + size)
    {
      PayloadApart(blocks, k, size, j);
    }
    forall o: nat | o < Min(blocks[i].size, size)
      ensures ByteAt(bytes2, to, o) == ByteAt(bytes0, from, o)
    {
      assert Payload(blocks[i], from + o);
    }
  }

  lemma PayloadApart(blocks: seq<Block>, k: nat, size: nat, j: nat)
    requires k < |blocks| && j < |blocks| && Ordered(Placed(blocks, k, size))
    ensures End(blocks[j]) <= End(blocks[k]) || End(blocks[k]) + HEADER + size <= blocks[j].address
  {
    var blocks' := Placed(blocks, k, size);
    if j <= k {
      assert blocks'[j] == blocks[j] && blocks'[k + 1] == Block(End(blocks[k]), size);
      Disjoint(blocks', j, k + 1);
    } else {
      assert blocks'[j + 1] == blocks[j];
      Disjoint(blocks', k + 1, j + 1);
    }
  }

  class Heap {
    const first: Chunk            // memory_chunk
    var headers: map<nat, Chunk>  // the header last written at an address
    var bytes: map<nat, nat>      // payload bytes
    ghost var chunks: seq<Chunk>  // along the next links
    ghost var blocks: seq<Block>  // what they look like

    ghost predicate Valid()
      reads this`headers, this`chunks, this`blocks, chunks
    {
      && chunks != [] && chunks[0] == first
      && Chained(chunks)
      && Stands(chunks, blocks) && Ordered(blocks)
      && Headed(headers, chunks)
    }

    /** Only the first chunk, of size 0. */
    constructor (address: nat)
      ensures Valid() && blocks == [Block(address, 0)] && fresh(first)
    {
      first := new Chunk(address, 0, null, null);
      headers, bytes := map[address := first], map[];
      chunks, blocks := [first], [Block(address, 0)];
    }

    /** memory_allocate: the first gap that is large enough takes the new chunk. */
    method Allocate(bytes: nat) returns (pointer: nat, ghost k: nat, ghost chunk': Chunk)
      requires Valid()
      modifies this`headers, this`bytes, this`chunks, this`blocks, chunks
      ensures Valid() && FirstFit(old(blocks), k, Align(bytes))
      ensures forall j: nat | j < k ::
                old(blocks)[j].address + old(blocks)[j].size + Align(bytes) + 48 >= old(blocks)[j + 1].address
      ensures k + 1 < |old(blocks)| ==> pointer + Align(bytes) < old(blocks)[k + 1].address
      ensures pointer == old(blocks)[k].address + old(blocks)[k].size + 48
      ensures blocks == Placed(old(blocks), k, Align(bytes)) && blocks[k + 1] == Block(pointer - 24, Align(bytes))
      ensures chunks == Inserted(old(chunks), k, chunk') && fresh(chunk')
      ensures SameBut(old(this.bytes), this.bytes, pointer - HEADER, pointer)
    {
      AlignRoundsUp(bytes);
      var size: nat := Align(bytes);
      var chunk;
      chunk, k := FindGap(size);
      FirstFitIs(blocks, k, size);
      pointer, chunk' := InsertAfter(chunk, size, k);
    }

    /** The walk along the next links to the first gap that passes the test. */
    method FindGap(size: nat) returns (chunk: Chunk, ghost k: nat)
      requires Valid()
      ensures k < |chunks| && chunk == chunks[k] && FirstFit(blocks, k, size)
      ensures k + 1 < |blocks| ==> blocks[k].address + blocks[k].size + size + 48 < blocks[k + 1].address
      ensures forall j: nat | j < k :: blocks[j].address + blocks[j].size + size + 48 >= blocks[j + 1].address
    {
      chunk, k := first, 0;
      assert Fits(blocks, |chunks| - 1, size);
      assert chunk.next == Successor(chunks, k);
      while chunk.next != null && !(chunk.next.address - (chunk.address + chunk.size) > size + 2 * HEADER)
        invariant k < |chunks| && chunk == chunks[k] && chunk.next == Successor(chunks, k)
        invariant forall j | 0 <= j < k :: !Fits(blocks, j, size)
        decreases |chunks| - k
      {
        chunk := chunk.next;
        k := k + 1;
        assert chunk.next == Successor(chunks, k);
      }
      FirstFitIs(blocks, k, size);
    }

    /** The new header is written right after the chunk's extent, and linked in. */
    method InsertAfter(chunk: Chunk, size: nat, ghost k: nat) returns (pointer: nat, ghost chunk': Chunk)
      requires Valid() && k < |chunks| && chunk == chunks[k] && Fits(blocks, k, size)
      modifies this`headers, this`bytes, this`chunks, this`blocks, chunks
      ensures Valid() && blocks == Placed(old(blocks), k, size)
      ensures pointer == End(old(blocks)[k]) + HEADER
      ensures chunks == Inserted(old(chunks), k, chunk') && fresh(chunk')
      ensures SameBut(old(bytes), bytes, pointer - HEADER, pointer)
    {
      var header := WriteHeader(chunk, size);
      chunk' := header;
      PlacedOrdered(blocks, k, size);
      InsertedHeaders(chunks, blocks, k, chunk', old(headers), headers);
      LinkNew(chunk, header, size, k);
      pointer := header.address + HEADER;
    }

    /** The new header joins the list. */
    method LinkNew(chunk: Chunk, header: Chunk, ghost size: nat, ghost k: nat)
      requires k < |chunks| && chunk == chunks[k] && chunks[0] == first && Chained(chunks) && Stands(chunks, blocks)
      requires Ordered(blocks) && Ordered(Placed(blocks, k, size)) && header !in chunks
      requires header.address == End(blocks[k]) && header.size == size
      requires header.next == chunk.next && header.previous == chunk
      requires Headed(headers, Inserted(chunks, k, header))
      modifies this`chunks, this`blocks, chunks
      ensures Valid() && blocks == Placed(old(blocks), k, size) && chunks == Inserted(old(chunks), k, header)
    {
      DistinctChunks(chunks, blocks);
      LinkIn(chunk, header, chunks, k);
      InsertedStands(chunks, blocks, k, header);
      chunks, blocks := Inserted(chunks, k, header), Placed(blocks, k, size);
    }

    method WriteHeader(chunk: Chunk, size: nat) returns (chunk': Chunk)
      modifies this`headers, this`bytes
      ensures fresh(chunk') && chunk'.address == chunk.address + HEADER + chunk.size && chunk'.size == size
      ensures chunk'.next == chunk.next && chunk'.previous == chunk
      ensures headers == old(headers)[chunk'.address := chunk']
      ensures SameBut(old(bytes), bytes, chunk'.address, chunk'.address + HEADER)
    {
      var address := chunk.address + HEADER + chunk.size;
      chunk' := new Chunk(address, size, chunk.next, chunk);
      ClobberHeader(address);
      headers := headers[address := chunk'];
    }

    /** memory_free: the chunk is unlinked; its header and its bytes stay where they are. */
    method Free(pointer: nat, ghost i: nat)
      requires Valid() && 0 < i < |chunks| && pointer == blocks[i].address + HEADER
      modifies this`chunks, this`blocks, {chunks[i - 1]}`next
      modifies (if i + 1 < |chunks| then {chunks[i + 1]} else {})`previous
      ensures Valid() && blocks == Removed(old(blocks), i) && chunks == Without(old(chunks), i)
    {
      DistinctChunks(chunks, blocks);
      assert chunks[i] in chunks;
      var header := headers[pointer - HEADER];
      Unlink(header, chunks, i);
      RemovedOrdered(blocks, i);
      RemovedStands(chunks, blocks, i);
      chunks, blocks := Without(chunks, i), Removed(blocks, i);
    }

    /** Freeing what was just allocated restores the list link for link. */
    method AllocateAndFree(bytes: nat)
      requires Valid()
      modifies this`headers, this`bytes, this`chunks, this`blocks, chunks
      ensures Valid() && chunks == old(chunks) && blocks == old(blocks)
    {
      ghost var chunks0, blocks0 := chunks, blocks;
      var pointer;
      ghost var k, chunk;
      pointer, k, chunk := Allocate(bytes);
      FreePlaced(pointer, chunks0, blocks0, k, chunk, Align(bytes));
    }

    /** Its second half: the block freed is the one just placed. */
    method FreePlaced(pointer: nat, ghost chunks0: seq<Chunk>, ghost blocks0: seq<Block>, ghost k: nat,
                      ghost chunk: Chunk, ghost size: nat)
      requires Valid() && k < |chunks0| == |blocks0| && pointer == End(blocks0[k]) + HEADER
      requires chunks == Inserted(chunks0, k, chunk) && blocks == Placed(blocks0, k, size)
      modifies this`chunks, this`blocks, chunks
      ensures Valid() && chunks == chunks0 && blocks == blocks0
    {
      PlacedThenRemoved(blocks0, k, size);
      InsertedThenRemoved(chunks0, k, chunk);
      Free(pointer, k + 1);
    }

    /** memory_resize: the last chunk is resized where it is; any other block moves to where first fit puts it, and
        the bytes of its new size are copied. Block `j` is the one the pointer returned belongs to. */
    method Resize(pointer: nat, bytes: nat, ghost i: nat) returns (pointer': nat, ghost k: nat, ghost j: nat)
      requires Valid() && 0 < i < |chunks| && pointer == blocks[i].address + HEADER
      modifies this`headers, this`bytes, this`chunks, this`blocks, chunks
      ensures Valid() && HeapLayout.After(old(blocks), HeapLayout.Resize(i, Align(bytes)), blocks)
      ensures GrowsInPlace(old(blocks), i) ==>
                pointer' == pointer && this.bytes == old(this.bytes) && blocks == Resized(old(blocks), i, Align(bytes))
      ensures !GrowsInPlace(old(blocks), i) ==>
                MovedTo(old(blocks), i, Align(bytes), k, blocks) && pointer' == End(old(blocks)[k]) + HEADER
      ensures 0 < j < |blocks| && blocks[j].address + HEADER == pointer' && blocks[j].size == Align(bytes)
      ensures forall o: nat | o < old(blocks)[i].size && o < Align(bytes) ::
                ByteAt(this.bytes, pointer', o) == ByteAt(old(this.bytes), pointer, o)
      ensures forall j: nat, a: nat | j < |old(blocks)| && j != i && Payload(old(blocks)[j], a) ::
                Read(this.bytes, a) == Read(old(this.bytes), a)
    {
      hide Removed;
      AlignRoundsUp(bytes);
      var size: nat := Align(bytes);
      assert chunks[i] in chunks;
      var header := headers[pointer - HEADER];
      assert header.next == Successor(chunks, i);
      k, j := 0, i;
      if header.next == null || header.address + header.size >= header.next.address {
        InPlaceOnlyLast(blocks, i);
        ResizedOrdered(blocks, size);
        header.size := size;
        blocks := Resized(blocks, i, size);
        pointer' := pointer;
      } else {
        pointer', k, j := Move(pointer, size, i);
      }
    }

    /** Its other branch: allocate, copy, free. */
    method Move(pointer: nat, size: nat, ghost i: nat) returns (pointer': nat, ghost k: nat, ghost j: nat)
      requires Valid() && 0 < i < |chunks| && pointer == blocks[i].address + HEADER && Align(size) == size
      modifies this`headers, this`bytes, this`chunks, this`blocks, chunks
      ensures Valid() && MovedTo(old(blocks), i, size, k, blocks) && pointer' == End(old(blocks)[k]) + HEADER
      ensures 0 < j < |blocks| && blocks[j].address + HEADER == pointer' && blocks[j].size == size
      ensures Carried(old(bytes), bytes, pointer, pointer', Min(old(blocks[i].size), size))
      ensures Undisturbed(old(blocks), i, old(bytes), bytes)
    {
      hide Ordered;
      ghost var blocks0 := blocks;
      pointer', k := CopyOut(pointer, size, i);
      MovedBlock(blocks0, i, size, k);
      j := if k < i then k + 1 else k;
      ghost var i' := if k < i then i + 1 else i;
      assert chunks[i' - 1] in chunks && (i' + 1 < |chunks| ==> chunks[i' + 1] in chunks);
      Free(pointer, i');
    }

    /** The new block and the copy into it. */
    method CopyOut(pointer: nat, size: nat, ghost i: nat) returns (pointer': nat, ghost k: nat)
      requires Valid() && 0 < i < |chunks| && pointer == blocks[i].address + HEADER && Align(size) == size
      modifies this`headers, this`bytes, this`chunks, this`blocks, chunks
      ensures Valid() && FirstFit(old(blocks), k, size) && blocks == Placed(old(blocks), k, size)
      ensures pointer' == End(old(blocks)[k]) + HEADER
      ensures forall c | c in chunks :: c in old(chunks) || fresh(c)
      ensures Carried(old(bytes), bytes, pointer, pointer', Min(old(blocks[i].size), size))
      ensures Undisturbed(old(blocks), i, old(bytes), bytes)
    {
      hide Align, Min;
      ghost var blocks0, bytes0 := blocks, bytes;
      pointer', k := NewBlock(size);
      ghost var bytes1 := bytes;
      Copy(pointer, pointer', size);
      MovePreserves(blocks0, k, size, i, bytes0, bytes1, bytes);
    }

    /** Its allocation, as the move sees it. */
    method NewBlock(size: nat) returns (pointer: nat, ghost k: nat)
      requires Valid() && Align(size) == size
      modifies this`headers, this`bytes, this`chunks, this`blocks, chunks
      ensures Valid() && FirstFit(old(blocks), k, size) && blocks == Placed(old(blocks), k, size)
      ensures Ordered(Placed(old(blocks), k, size)) && pointer == End(old(blocks)[k]) + HEADER
      ensures forall c | c in chunks :: c in old(chunks) || fresh(c)
      ensures SameBut(old(bytes), bytes, pointer - HEADER, pointer)
    {
      ghost var chunk := first;
      pointer, k, chunk := Allocate(size);
    }

    /** memory_copy: byte after byte upwards, so a source byte inside the destination may be overwritten first. */
    method Copy(from: nat, to: nat, size: nat)
      modifies this`bytes
      ensures Copied(old(bytes), bytes, from, to, size, size)
      ensures forall o: nat | o < size && !(to <= from + o < to + size) ::
                ByteAt(bytes, to, o) == ByteAt(old(bytes), from, o)
    {
      var i := 0;
      while i < size
        invariant 0 <= i <= size
        invariant Copied(old(bytes), bytes, from, to, size, i)
      {
        CopiedOne(old(bytes), bytes, from, to, size, i);
        bytes := bytes[to + i := Read(bytes, from + i)];
        i := i + 1;
      }
    }

    /** memory_set, and memory_zero for value 0. */
    method Set(address: nat, size: nat, value: nat)
      modifies this`bytes
      ensures forall a: nat :: Read(bytes, a) == if address <= a < address + size then value else Read(old(bytes), a)
    {
      var i := 0;
      while i < size
        invariant 0 <= i <= size
        invariant Filled(old(bytes), bytes, address, i, value)
      {
        FilledOne(old(bytes), bytes, address, i, value);
        bytes := bytes[address + i := value];
        i := i + 1;
      }
    }

    /** The bytes a header is written over hold no payload any more. */
    method ClobberHeader(address: nat)
      modifies this`bytes
      ensures SameBut(old(bytes), bytes, address, address + HEADER)
    {
      var i := 0;
      while i < HEADER
        invariant 0 <= i <= HEADER
        invariant SameBut(old(bytes), bytes, address, address + HEADER)
      {
        var value: nat := *;
        bytes := bytes[address + i := value];
        i := i + 1;
      }
    }
  }

  /** The header found at the address of each chunk is the chunk's. */
  ghost predicate Headed(headers: map<nat, Chunk>, chunks: seq<Chunk>) {
    forall c <- chunks :: c.address in headers && headers[c.address] == c
  }

  lemma DistinctChunks(chunks: seq<Chunk>, blocks: seq<Block>)
    requires Stands(chunks, blocks) && Ordered(blocks)
    ensures forall i, j | 0 <= i < j < |chunks| :: chunks[i] != chunks[j]
    ensures forall i, j | 0 <= i < j < |chunks| :: chunks[i].address != chunks[j].address
  {
    forall i, j | 0 <= i < j < |chunks|
      ensures chunks[i].address != chunks[j].address
    {
      Disjoint(blocks, i, j);
    }
  }

  ghost function Without(chunks: seq<Chunk>, i: nat): seq<Chunk>
    requires i < |chunks|
  {
    chunks[..i] + chunks[i + 1..]
  }

  /** Unlinks chunk `i` of a list. */
  method Unlink(header: Chunk, ghost chunks: seq<Chunk>, ghost i: nat)
    requires Chained(chunks) && 0 < i < |chunks| && header == chunks[i]
    requires forall i, j | 0 <= i < j < |chunks| :: chunks[i] != chunks[j]
    modifies (if header.next == null then {} else {header.next})`previous
    modifies (if header.previous == null then {} else {header.previous})`next
    ensures Chained(Without(chunks, i))
  {
    assert header.next == Successor(chunks, i) && header.previous == Predecessor(chunks, i);
    if header.previous != null {
      header.previous.next := header.next;
    }
    if header.next != null {
      header.next.previous := header.previous;
    }
    RemovedChained(chunks, i);
  }

  lemma RemovedChained(chunks: seq<Chunk>, k: nat)
    requires 0 < k < |chunks|
    requires forall i {:trigger chunks[i].next} | 0 <= i < |chunks| && i != k - 1 ::
               chunks[i].next == Successor(chunks, i)
    requires forall i {:trigger chunks[i].previous} | 0 <= i < |chunks| && i != k + 1 ::
               chunks[i].previous == Predecessor(chunks, i)
    requires chunks[k - 1].next == Successor(chunks, k)
    requires k + 1 < |chunks| ==> chunks[k + 1].previous == chunks[k - 1]
    ensures Chained(Without(chunks, k))
  {
    var chunks' := Without(chunks, k);
    forall i | 0 <= i < |chunks'|
      ensures chunks'[i].next == Successor(chunks', i) && chunks'[i].previous == Predecessor(chunks', i)
    {
      assert chunks'[i] == chunks[if i < k then i else i + 1];
      assert i + 1 < |chunks'| ==> chunks'[i + 1] == chunks[if i + 1 < k then i + 1 else i + 2];
      assert i > 0 ==> chunks'[i - 1] == chunks[if i - 1 < k then i - 1 else i];
    }
  }

  lemma RemovedStands(chunks: seq<Chunk>, blocks: seq<Block>, i: nat)
    requires Stands(chunks, blocks) && i < |chunks|
    ensures Stands(Without(chunks, i), Removed(blocks, i))
  {}

  ghost function Inserted(chunks: seq<Chunk>, k: nat, chunk: Chunk): seq<Chunk>
    requires k < |chunks|
  {
    chunks[..k + 1] + [chunk] + chunks[k + 1..]
  }

  lemma InsertedAt(chunks: seq<Chunk>, k: nat, chunk: Chunk, i: nat)
    requires k < |chunks| && i <= |chunks|
    ensures Inserted(chunks, k, chunk)[i] == if i <= k then chunks[i] else if i == k + 1 then chunk else chunks[i - 1]
  {}

  lemma InsertedThenRemoved(chunks: seq<Chunk>, k: nat, chunk: Chunk)
    requires k < |chunks|
    ensures Without(Inserted(chunks, k, chunk), k + 1) == chunks
  {
    assert Inserted(chunks, k, chunk)[..k + 1] == chunks[..k + 1];
    assert Inserted(chunks, k, chunk)[k + 2..] == chunks[k + 1..];
  }

  /** Links a new chunk in after chunk `k` of a list. */
  method LinkIn(chunk: Chunk, chunk': Chunk, ghost chunks: seq<Chunk>, ghost k: nat)
    requires Chained(chunks) && k < |chunks| && chunk == chunks[k] && chunk' !in chunks
    requires forall i, j | 0 <= i < j < |chunks| :: chunks[i] != chunks[j]
    requires chunk'.next == chunk.next && chunk'.previous == chunk
    modifies chunk`next, (if chunk.next == null then {} else {chunk.next})`previous
    ensures Chained(Inserted(chunks, k, chunk'))
  {
    assert chunk.next == Successor(chunks, k);
    if chunk.next != null {
      chunk.next.previous := chunk';
    }
    chunk.next := chunk';
    InsertedChained(chunks, k, chunk');
  }

  lemma InsertedChained(chunks: seq<Chunk>, k: nat, chunk: Chunk)
    requires k < |chunks|
    requires forall i {:trigger chunks[i].next} | 0 <= i < |chunks| && i != k :: chunks[i].next == Successor(chunks, i)
    requires forall i {:trigger chunks[i].previous} | 0 <= i < |chunks| && i != k + 1 ::
               chunks[i].previous == Predecessor(chunks, i)
    requires chunks[k].next == chunk && chunk.next == Successor(chunks, k) && chunk.previous == chunks[k]
    requires k + 1 < |chunks| ==> chunks[k + 1].previous == chunk
    ensures Chained(Inserted(chunks, k, chunk))
  {
    var chunks' := Inserted(chunks, k, chunk);
    forall i | 0 <= i < |chunks'|
      ensures chunks'[i].next == Successor(chunks', i) && chunks'[i].previous == Predecessor(chunks', i)
    {
      InsertedAt(chunks, k, chunk, i);
    }
  }

  lemma InsertedStands(chunks: seq<Chunk>, blocks: seq<Block>, k: nat, chunk: Chunk)
    requires Stands(chunks, blocks) && k < |chunks| && chunk.address == End(blocks[k])
    ensures Stands(Inserted(chunks, k, chunk), Placed(blocks, k, chunk.size))
  {
    var chunks', blocks' := Inserted(chunks, k, chunk), Placed(blocks, k, chunk.size);
    forall i | 0 <= i < |chunks'|
      ensures chunks'[i].address == blocks'[i].address && chunks'[i].size == blocks'[i].size
    {
      InsertedAt(chunks, k, chunk, i);
    }
  }

  lemma InsertedHeaders(chunks: seq<Chunk>, blocks: seq<Block>, k: nat, chunk: Chunk, headers: map<nat, Chunk>,
                        headers': map<nat, Chunk>)
    requires Stands(chunks, blocks) && k < |chunks| && chunk.address == End(blocks[k])
             && Ordered(Placed(blocks, k, chunk.size))
    requires Headed(headers, chunks) && headers' == headers[chunk.address := chunk]
    ensures Headed(headers', Inserted(chunks, k, chunk))
  {
    InsertedStands(chunks, blocks, k, chunk);
    var chunks' := Inserted(chunks, k, chunk);
    DistinctChunks(chunks', Placed(blocks, k, chunk.size));
    forall i | 0 <= i < |chunks'|
      ensures chunks'[i].address in headers' && headers'[chunks'[i].address] == chunks'[i]
    {
      InsertedAt(chunks, k, chunk, i);
      InsertedAt(chunks, k, chunk, k + 1);
    }
  }
}
