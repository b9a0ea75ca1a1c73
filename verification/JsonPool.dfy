/**
  `MemoryPoolAllocator`: chunks of memory carved front to back, never given back singly. Addresses and sizes are
  natural numbers; a 64-bit platform is assumed, on which a chunk header takes 24 bytes.
 */
module JsonPool {
  import opened Json
  import opened Memory

  const HEADER := 24

  /** RAPIDJSON_ALIGN. */
  function Align(n: nat): (a: nat)
    ensures a % 8 == 0 && n <= a < n + 8
  {
    (n + 7) / 8 * 8
  }

  datatype Chunk = Chunk(base: nat, capacity: nat, size: nat)

  /** A block handed out: `length` is the aligned size. */
  datatype Block = Block(start: nat, length: nat)

  predicate ChunksApart(cs: seq<Chunk>) {
    forall i, j :: 0 <= i < j < |cs| ==>
      Apart(cs[i].base, HEADER + cs[i].capacity, cs[j].base, HEADER + cs[j].capacity)
  }

  /** The block lies in the used part of a chunk, at a multiple of eight from its data. */
  predicate InChunk(b: Block, c: Chunk) {
    && c.base + HEADER <= b.start && b.start + b.length <= c.base + HEADER + c.size
    && (b.start - c.base) % 8 == 0 && b.length % 8 == 0 && b.length > 0
  }

  predicate Placed(b: Block, cs: seq<Chunk>) {
    exists i :: 0 <= i < |cs| && InChunk(b, cs[i])
  }

  predicate ChunksFit(cs: seq<Chunk>) {
    forall i :: 0 <= i < |cs| ==> cs[i].size <= cs[i].capacity && cs[i].size % 8 == 0
  }

  ghost predicate BlocksApart(live: set<Block>) {
    forall a <- live, b <- live :: a != b ==> Apart(a.start, a.length, b.start, b.length)
  }

  /** What every run of the allocator keeps. */
  ghost predicate Sound(cs: seq<Chunk>, live: set<Block>) {
    ChunksApart(cs) && ChunksFit(cs) && (forall b <- live :: Placed(b, cs)) && BlocksApart(live)
  }

  function TotalSize(cs: seq<Chunk>): nat {
    if cs == [] then 0 else cs[0].size + TotalSize(cs[1..])
  }

  function TotalCapacity(cs: seq<Chunk>): nat {
    if cs == [] then 0 else cs[0].capacity + TotalCapacity(cs[1..])
  }

  lemma {:induction false} SizeWithinCapacity(cs: seq<Chunk>)
    requires forall i :: 0 <= i < |cs| ==> cs[i].size <= cs[i].capacity
    ensures TotalSize(cs) <= TotalCapacity(cs)
    decreases cs
  {
    if cs != [] {
      SizeWithinCapacity(cs[1..]);
    }
  }

  /** Blocks are aligned in memory exactly as far as their chunk is. */
  lemma BlockAlignment(b: Block, c: Chunk)
    requires InChunk(b, c)
    ensures b.start % 8 == 0 <==> c.base % 8 == 0
  {
  }

  /** When the base allocator aligns what it hands out, every live block is aligned. */
  lemma LiveAligned(cs: seq<Chunk>, live: set<Block>)
    requires Sound(cs, live) && forall i :: 0 <= i < |cs| ==> cs[i].base % 8 == 0
    ensures forall b <- live :: b.start % 8 == 0 && b.length % 8 == 0
  {
    forall b <- live ensures b.start % 8 == 0 && b.length % 8 == 0 {
      var i :| 0 <= i < |cs| && InChunk(b, cs[i]);
      BlockAlignment(b, cs[i]);
    }
  }

  /** Blocks of different chunks, and a new block at the end of the used part, do not meet older ones. */
  lemma EndIsFree(cs: seq<Chunk>, live: set<Block>, length: nat, b: Block)
    requires Sound(cs, live) && cs != [] && b in live && cs[0].size + length <= cs[0].capacity
    ensures Apart(b.start, b.length, cs[0].base + HEADER + cs[0].size, length) && b.length > 0
  {
    var i :| 0 <= i < |cs| && InChunk(b, cs[i]);
    if i > 0 {
      assert Apart(cs[0].base, HEADER + cs[0].capacity, cs[i].base, HEADER + cs[i].capacity);
    }
  }

  /** Growing the used part of the head chunk leaves older blocks placed. */
  lemma StillPlaced(cs: seq<Chunk>, size: nat, b: Block)
    requires cs != [] && Placed(b, cs) && cs[0].size <= size
    ensures Placed(b, cs[0 := cs[0].(size := size)])
  {
    var i :| 0 <= i < |cs| && InChunk(b, cs[i]);
    var ds := cs[0 := cs[0].(size := size)];
    assert InChunk(b, ds[i]);
  }

  /** `length` more bytes of the head chunk are in use. */
  function Grown(cs: seq<Chunk>, length: nat): seq<Chunk>
    requires cs != []
  {
    cs[0 := cs[0].(size := cs[0].size + length)]
  }

  lemma GrownSize(cs: seq<Chunk>, length: nat)
    requires cs != []
    ensures TotalSize(Grown(cs, length)) == TotalSize(cs) + length
  {
    assert Grown(cs, length)[1..] == cs[1..];
  }

  lemma GrownFits(cs: seq<Chunk>, length: nat)
    requires ChunksApart(cs) && ChunksFit(cs) && cs != [] && length % 8 == 0 && cs[0].size + length <= cs[0].capacity
    ensures ChunksApart(Grown(cs, length)) && ChunksFit(Grown(cs, length))
  {
    var ds := Grown(cs, length);
    forall i, j | 0 <= i < j < |ds|
      ensures Apart(ds[i].base, HEADER + ds[i].capacity, ds[j].base, HEADER + ds[j].capacity)
    {
      assert Apart(cs[i].base, HEADER + cs[i].capacity, cs[j].base, HEADER + cs[j].capacity);
    }
  }

  /** One more block, apart from the others. */
  lemma OneMore(cs: seq<Chunk>, others: set<Block>, b: Block)
    requires Sound(cs, others) && Placed(b, cs)
    requires forall a <- others :: Apart(a.start, a.length, b.start, b.length)
    ensures Sound(cs, others + {b})
  {
    hide Placed, ChunksApart, ChunksFit;
  }

  /** Using more of the head chunk keeps every block. */
  lemma GrownSound(cs: seq<Chunk>, live: set<Block>, length: nat)
    requires Sound(cs, live) && cs != [] && length % 8 == 0 && cs[0].size + length <= cs[0].capacity
    ensures Sound(Grown(cs, length), live)
  {
    hide Placed, ChunksApart, ChunksFit, BlocksApart;
    GrownFits(cs, length);
    forall a <- live ensures Placed(a, Grown(cs, length)) {
      StillPlaced(cs, cs[0].size + length, a);
    }
  }

  lemma PlacedFirst(cs: seq<Chunk>, b: Block)
    requires cs != [] && InChunk(b, cs[0])
    ensures Placed(b, cs) && b.length > 0
  {
  }

  lemma EndInChunk(cs: seq<Chunk>, length: nat)
    requires ChunksFit(cs) && cs != [] && length > 0 && length % 8 == 0
    ensures InChunk(Block(cs[0].base + HEADER + cs[0].size, length), Grown(cs, length)[0])
  {
  }

  /** The head chunk's end becomes a new block. */
  lemma Carve(cs: seq<Chunk>, live: set<Block>, length: nat)
    requires Sound(cs, live) && cs != [] && length > 0 && length % 8 == 0 && cs[0].size + length <= cs[0].capacity
    ensures var b := Block(cs[0].base + HEADER + cs[0].size, length);
            b !in live && InChunk(b, Grown(cs, length)[0]) && Sound(Grown(cs, length), live + {b})
  {
    hide Placed, ChunksApart, ChunksFit, BlocksApart, InChunk;
    var b := Block(cs[0].base + HEADER + cs[0].size, length);
    EndInChunk(cs, length);
    PlacedFirst(Grown(cs, length), b);
    NewApart(cs, live, length);
    GrownSound(cs, live, length);
    OneMore(Grown(cs, length), live, b);
  }

  /** The last block grows into the free part of the head chunk. */
  lemma Extend(cs: seq<Chunk>, live: set<Block>, b: Block, length: nat)
    requires Sound(cs, live) && cs != [] && b in live && length % 8 == 0 && length > b.length
    requires b.start + b.length == cs[0].base + HEADER + cs[0].size
    requires cs[0].size + (length - b.length) <= cs[0].capacity && InChunk(b, cs[0])
    ensures Sound(Grown(cs, length - b.length), live - {b} + {Block(b.start, length)})
  {
    hide Placed, ChunksApart, ChunksFit;
    var more := length - b.length;
    var c := Block(b.start, length);
    forall a <- live - {b} ensures Apart(a.start, a.length, c.start, c.length) {
      EndIsFree(cs, live, more, a);
      assert Apart(a.start, a.length, b.start, b.length);
    }
    GrownSound(cs, live, more);
    Moved(Grown(cs, more), live, b);
    PlacedFirst(Grown(cs, more), c);
    OneMore(Grown(cs, more), live - {b}, c);
  }

  /** Memory the base allocator may hand out: apart from everything it has handed out before. */
  predicate FreshMemory(cs: seq<Chunk>, raw: nat, size: nat) {
    forall i :: 0 <= i < |cs| ==> Apart(raw, size, cs[i].base, HEADER + cs[i].capacity)
  }

  lemma AddChunkSound(cs: seq<Chunk>, live: set<Block>, raw: nat, capacity: nat)
    requires Sound(cs, live) && FreshMemory(cs, raw, HEADER + capacity)
    ensures Sound([Chunk(raw, capacity, 0)] + cs, live)
  {
    var ds := [Chunk(raw, capacity, 0)] + cs;
    forall b <- live ensures Placed(b, ds) {
      var i :| 0 <= i < |cs| && InChunk(b, cs[i]);
      assert InChunk(b, ds[i + 1]);
    }
    forall i, j | 0 <= i < j < |ds|
      ensures Apart(ds[i].base, HEADER + ds[i].capacity, ds[j].base, HEADER + ds[j].capacity)
    {
      assert ds[j] == cs[j - 1];
      if i > 0 {
        assert ds[i] == cs[i - 1];
      }
    }
  }

  lemma AlignTwice(n: nat)
    ensures Align(Align(n)) == Align(n)
  {
  }

  lemma NewApart(cs: seq<Chunk>, live: set<Block>, length: nat)
    requires Sound(cs, live) && cs != [] && cs[0].size + length <= cs[0].capacity
    ensures forall b <- live :: Apart(b.start, b.length, cs[0].base + HEADER + cs[0].size, length)
  {
    forall b <- live ensures Apart(b.start, b.length, cs[0].base + HEADER + cs[0].size, length) {
      EndIsFree(cs, live, length, b);
    }
  }

  lemma LiveHasChunk(cs: seq<Chunk>, live: set<Block>, b: Block)
    requires Sound(cs, live) && b in live
    ensures cs != [] && b.length % 8 == 0 && b.length > 0
  {
    assert Placed(b, cs);
  }

  /**
    Measured from its start, a length within the block ends where the used part of the head chunk ends only when the
    block is that chunk's last and the length is all of it.
   */
  lemma LastBlock(cs: seq<Chunk>, live: set<Block>, b: Block, length: nat)
    requires Sound(cs, live) && b in live && cs != [] && length <= b.length
    requires b.start + length == cs[0].base + HEADER + cs[0].size
    ensures InChunk(b, cs[0]) && length == b.length
  {
    assert Placed(b, cs);
    assert forall i :: 0 < i < |cs| ==> Apart(cs[0].base, HEADER + cs[0].capacity, cs[i].base, HEADER + cs[i].capacity);
  }

  lemma Moved(cs: seq<Chunk>, live: set<Block>, b: Block)
    requires Sound(cs, live)
    ensures Sound(cs, live - {b})
  {
  }

  datatype MaybeAddress = NoMemory | At(address: nat)

  class MemoryPoolAllocator {
    const chunkCapacity: nat
    const userBuffer: MaybeAddress
    /** The linked list of chunks, head first. */
    var chunks: seq<Chunk>
    /** The bytes at every address. */
    ghost var memory: nat -> Byte
    /** Addresses given back to the base allocator. */
    var freed: seq<nat>
    ghost var live: set<Block>

    ghost predicate Valid()
      reads this
    {
      Sound(chunks, live)
      && (userBuffer.At? ==> chunks != [] && chunks[|chunks| - 1].base == userBuffer.address)
    }

    constructor (chunkCapacity: nat)
      ensures Valid() && chunks == [] && live == {} && userBuffer == NoMemory && freed == []
      ensures this.chunkCapacity == chunkCapacity
    {
      this.chunkCapacity, userBuffer := chunkCapacity, NoMemory;
      chunks, freed, live := [], [], {};
    }

    /** With a user-supplied buffer as the first chunk. */
    constructor WithBuffer(buffer: nat, size: nat, chunkCapacity: nat)
      requires size > HEADER
      ensures Valid() && live == {} && chunks == [Chunk(buffer, size - HEADER, 0)] && userBuffer == At(buffer) && freed == []
      ensures this.chunkCapacity == chunkCapacity
    {
      this.chunkCapacity, userBuffer := chunkCapacity, At(buffer);
      chunks, freed, live := [Chunk(buffer, size - HEADER, 0)], [], {};
    }

    /** The size of the request `Malloc` makes to the base allocator, when it makes one. */
    function Wanted(size: nat): nat
      reads this
    {
      HEADER + if chunkCapacity > size then chunkCapacity else size
    }

    predicate NeedsChunk(size: nat)
      reads this
    {
      chunks == [] || chunks[0].size + size > chunks[0].capacity
    }

    /** The chunks among which `size` bytes fit the first. */
    function Roomy(size: nat, raw: MaybeAddress): (cs: seq<Chunk>)
      requires NeedsChunk(size) ==> raw.At?
      reads this
      ensures cs != [] && cs[0].size + size <= cs[0].capacity
    {
      if NeedsChunk(size) then [Chunk(raw.address, Wanted(size) - HEADER, 0)] + chunks else chunks
    }

    /** `Malloc`; `raw` is what the base allocator answers, should it be asked. */
    method Malloc(size: nat, raw: MaybeAddress) returns (r: MaybeAddress)
      requires Valid()
      requires raw.At? ==> FreshMemory(chunks, raw.address, Wanted(Align(size)))
      modifies this`chunks, this`live
      ensures Valid() && memory == old(memory)
      ensures r.NoMemory? <==> size == 0 || (old(NeedsChunk(Align(size))) && raw.NoMemory?)
      ensures r.NoMemory? ==> chunks == old(chunks) && live == old(live)
      ensures r.At? ==> chunks == Grown(old(Roomy(Align(size), raw)), Align(size))
                        && r.address + Align(size) == chunks[0].base + HEADER + chunks[0].size
      ensures r.At? ==> Block(r.address, Align(size)) !in old(live)
                        && live == old(live) + {Block(r.address, Align(size))}
      ensures r.At? ==> TotalSize(chunks) == old(TotalSize(chunks)) + Align(size)
      ensures r.At? ==> forall b <- old(live) :: Apart(b.start, b.length, r.address, Align(size))
      ensures r.At? ==> InChunk(Block(r.address, Align(size)), chunks[0])
      ensures r.At? ==> (r.address % 8 == 0 <==> chunks[0].base % 8 == 0)
    {
      hide Sound, Align, InChunk, Apart, FreshMemory;
      if size == 0 {
        return NoMemory;
      }
      var length := Align(size);
      if chunks == [] || chunks[0].size + length > chunks[0].capacity {
        if raw.NoMemory? {
          return NoMemory;
        }
        var capacity := if chunkCapacity > length then chunkCapacity else length;
        AddChunkSound(chunks, live, raw.address, capacity);
        chunks := [Chunk(raw.address, capacity, 0)] + chunks;
        assert chunks[1..] == old(chunks);
      }
      Carve(chunks, live, length);
      NewApart(chunks, live, length);
      var start := chunks[0].base + HEADER + chunks[0].size;
      GrownSize(chunks, length);
      chunks := Grown(chunks, length);
      live := live + {Block(start, length)};
      BlockAlignment(Block(start, length), chunks[0]);
      return At(start);
    }

    /** Whether `Realloc` leaves a block of aligned size `from` where it is: to shrink it, or to grow the last one. */
    predicate StaysPut(address: nat, from: nat, to: nat)
      reads this
    {
      || from >= to
      || (&& chunks != [] && address + from == chunks[0].base + HEADER + chunks[0].size
          && chunks[0].size + (to - from) <= chunks[0].capacity)
    }

    /**
      `Realloc`. `block` is the live block at the original address, and the original size is truthful when it lies
      within that block: it may be less than the block holds after an earlier call has shrunk it. The old contents
      are kept, every other block keeps its place and contents, and a block that has to move leaves its old place
      unused.
     */
    method Realloc(original: MaybeAddress, originalSize: nat, newSize: nat, raw: MaybeAddress, ghost block: Block)
        returns (r: MaybeAddress)
      requires Valid()
      requires original.At? ==> block in live && block.start == original.address && Align(originalSize) <= block.length
      requires raw.At? ==> FreshMemory(chunks, raw.address, Wanted(Align(newSize)))
      modifies this`chunks, this`live, this`memory
      ensures Valid()
      ensures r.NoMemory? <==>
                || newSize == 0
                || (&& (original.At? ==> !old(StaysPut(original.address, Align(originalSize), Align(newSize))))
                    && old(NeedsChunk(Align(newSize))) && raw.NoMemory?)
      ensures r.NoMemory? ==> chunks == old(chunks) && live == old(live) && memory == old(memory)
      // A null original.
      ensures r.At? && original.NoMemory? ==>
                && memory == old(memory) && live == old(live) + {Block(r.address, Align(newSize))}
                && chunks == Grown(old(Roomy(Align(newSize), raw)), Align(newSize))
      // In place.
      ensures r.At? && original.At? ==>
                (r == original <==> old(StaysPut(original.address, Align(originalSize), Align(newSize))))
      ensures r.At? && original.At? && Align(originalSize) >= Align(newSize) ==>
                chunks == old(chunks) && live == old(live) && memory == old(memory)
      ensures r.At? && r == original && Align(originalSize) < Align(newSize) ==>
                && memory == old(memory) && live == old(live) - {block} + {Block(r.address, Align(newSize))}
                && old(chunks) != [] && chunks == Grown(old(chunks), Align(newSize) - Align(originalSize))
      // To a new place.
      ensures r.At? && original.At? && r != original ==>
                && live == old(live) - {block} + {Block(r.address, Align(newSize))}
                && chunks == Grown(old(Roomy(Align(newSize), raw)), Align(newSize))
      ensures r.At? && r != original ==> forall b <- old(live) :: Apart(b.start, b.length, r.address, Align(newSize))
      ensures r.At? && r != original ==> InChunk(Block(r.address, Align(newSize)), chunks[0])
      // Contents.
      ensures r.At? && original.At? ==> Kept(old(memory), memory, original.address, r.address, Align(originalSize))
      ensures forall b <- old(live) :: Kept(old(memory), memory, b.start, b.start, b.length)
    {
      hide Sound, Kept, Align, InChunk;
      SameKept(memory);
      if original.NoMemory? {
        r := Malloc(newSize, raw);
        return;
      }
      if newSize == 0 {
        return NoMemory;
      }
      var from, to := Align(originalSize), Align(newSize);
      if from >= to {
        return original;
      }
      LiveHasChunk(chunks, live, block);
      if original.address + from == chunks[0].base + HEADER + chunks[0].size {
        LastBlock(chunks, live, block, from);
        if chunks[0].size + (to - from) <= chunks[0].capacity {
          Extend(chunks, live, block, to);
          GrownSize(chunks, to - from);
          chunks := Grown(chunks, to - from);
          live := live - {block} + {Block(original.address, to)};
          return original;
        }
      }
      AlignTwice(newSize);
      r := Malloc(to, raw);
      if r.At? {
        CopyKeeps(memory, original.address, r.address, from, to);
        memory := Copied(memory, original.address, r.address, from);
        Moved(chunks, live, block);
        live := live - {block};
        assert live == old(live) - {block} + {Block(r.address, to)};
      }
    }

    /** `Size`. */
    method Size() returns (size: nat)
      ensures size == TotalSize(chunks)
    {
      size := 0;
      for i := 0 to |chunks|
        invariant size + TotalSize(chunks[i..]) == TotalSize(chunks)
      {
        assert chunks[i..][1..] == chunks[i + 1..];
        size := size + chunks[i].size;
      }
    }

    /** `Capacity`. */
    method Capacity() returns (capacity: nat)
      requires Valid()
      ensures capacity == TotalCapacity(chunks) && TotalSize(chunks) <= capacity
    {
      capacity := 0;
      for i := 0 to |chunks|
        invariant capacity + TotalCapacity(chunks[i..]) == TotalCapacity(chunks)
      {
        assert chunks[i..][1..] == chunks[i + 1..];
        capacity := capacity + chunks[i].capacity;
      }
      SizeWithinCapacity(chunks);
    }

    /** `Clear`: gives every chunk back once, except the user's buffer, which is emptied. */
    method Clear()
      requires Valid()
      modifies this`chunks, this`live, this`freed
      ensures Valid() && live == {}
      ensures userBuffer.NoMemory? ==> chunks == [] && freed == old(freed) + Bases(old(chunks))
      ensures userBuffer.At? ==>
                var n := |old(chunks)| - 1;
                n >= 0 && chunks == [old(chunks)[n].(size := 0)] && freed == old(freed) + Bases(old(chunks)[..n])
    {
      ghost var all := chunks;
      BasesApart(all, live);
      hide Sound;
      ghost var k := 0;
      while chunks != [] && !(userBuffer.At? && chunks[0].base == userBuffer.address)
        invariant 0 <= k <= |all| && chunks == all[k..] && freed == old(freed) + Bases(all[..k])
        invariant userBuffer.At? ==> k < |all|
        decreases |chunks|
      {
        freed := freed + [chunks[0].base];
        BasesStep(all, k);
        chunks := chunks[1..];
        k := k + 1;
      }
      if chunks != [] {
        assert all[k].base == all[|all| - 1].base;
        assert all[k..] == [all[k]];
        chunks := [chunks[0].(size := 0)];
      } else {
        assert all[..k] == all;
      }
      live := {};
      EmptySound(chunks);
    }
  }

  /** `memcpy`. */
  function Copied(m: nat -> Byte, from: nat, to: nat, count: nat): nat -> Byte {
    (a: nat) => if to <= a < to + count then m(a - to + from) else m(a)
  }

  /** The bytes at `from` are now at `to`. */
  ghost predicate Kept(m: nat -> Byte, n: nat -> Byte, from: nat, to: nat, count: nat) {
    forall a: nat :: to <= a < to + count ==> n(a) == m(a - to + from)
  }

  lemma SameKept(m: nat -> Byte)
    ensures forall a, count :: Kept(m, m, a, a, count)
  {
  }

  /** Copying a block to a new place that no live block meets. */
  lemma CopyKeeps(m: nat -> Byte, from: nat, to: nat, count: nat, room: nat)
    requires count <= room
    ensures Kept(m, Copied(m, from, to, count), from, to, count)
    ensures forall a, n :: Apart(a, n, to, room) ==> Kept(m, Copied(m, from, to, count), a, a, n)
  {
  }

  function Bases(cs: seq<Chunk>): seq<nat> {
    seq(|cs|, i requires 0 <= i < |cs| => cs[i].base)
  }

  lemma BasesStep(cs: seq<Chunk>, k: nat)
    requires k < |cs|
    ensures Bases(cs[..k + 1]) == Bases(cs[..k]) + [cs[k].base]
  {
  }

  /** No two chunks start at the same address, so each is given back once. */
  lemma BasesApart(cs: seq<Chunk>, live: set<Block>)
    requires Sound(cs, live)
    ensures forall i, j :: 0 <= i < j < |cs| ==> cs[i].base != cs[j].base
  {
    forall i, j | 0 <= i < j < |cs| ensures cs[i].base != cs[j].base {
      assert Apart(cs[i].base, HEADER + cs[i].capacity, cs[j].base, HEADER + cs[j].capacity);
    }
  }

  lemma EmptySound(cs: seq<Chunk>)
    requires |cs| <= 1 && (cs != [] ==> cs[0].size == 0)
    ensures Sound(cs, {})
  {
  }
}
