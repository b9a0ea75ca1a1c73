/**
  RapidXML's `memory_pool`: aligned blocks carved from a static pool and, when it is full, from raw memory whose
  first aligned bytes hold a header leading back to the pool before. Addresses are natural numbers.
 */
module XmlPool {
  import opened Memory

  const ALIGNMENT := 8
  const HEADER := 8
  const STATIC_SIZE := 0x1_0000
  const DYNAMIC_SIZE := 0x1_0000

  /** `align`: the next multiple of the alignment. */
  function AlignUp(p: nat): (a: nat)
    ensures a % ALIGNMENT == 0 && p <= a < p + ALIGNMENT
  {
    p + (ALIGNMENT - p % ALIGNMENT) % ALIGNMENT
  }

  /** Raw memory making up a pool. The first one is static and has no header. */
  datatype Pool = Pool(begin: nat, end: nat)

  datatype Block = Block(start: nat, size: nat)

  /** Where blocks of the pool may start: after the header of a dynamic pool. */
  function DataStart(p: Pool, isStatic: bool): nat {
    if isStatic then AlignUp(p.begin) else AlignUp(p.begin) + HEADER
  }

  /** `alloc_size`: room for the header and two alignments, one for the header and one for the block. */
  function AllocSize(size: nat): nat {
    HEADER + (2 * ALIGNMENT - 2) + if DYNAMIC_SIZE < size then size else DYNAMIC_SIZE
  }

  /** The worst-case room suffices whatever address the raw memory has. */
  lemma RoomSuffices(raw: nat, size: nat)
    ensures AlignUp(AlignUp(raw) + HEADER) + size <= raw + AllocSize(size)
  {
  }

  predicate InPool(b: Block, p: Pool, isStatic: bool) {
    DataStart(p, isStatic) <= b.start && b.start + b.size <= p.end && b.start % ALIGNMENT == 0
  }

  predicate PoolsApart(ps: seq<Pool>) {
    forall i, j :: 0 <= i < j < |ps| ==> Apart(ps[i].begin, Length(ps[i]), ps[j].begin, Length(ps[j]))
  }

  function Length(p: Pool): nat {
    if p.end < p.begin then 0 else p.end - p.begin
  }

  predicate Placed(b: Block, ps: seq<Pool>) {
    exists i :: 0 <= i < |ps| && InPool(b, ps[i], i == 0)
  }

  /**
    What every run keeps: the pools, oldest first, are apart; every block is aligned and inside a pool, behind
    its header; blocks are apart, and those of the current pool lie below the free pointer.
   */
  ghost predicate Sound(ps: seq<Pool>, ptr: nat, live: set<Block>) {
    && ps != [] && PoolsApart(ps)
    && (forall i :: 0 <= i < |ps| ==> ps[i].begin < ps[i].end && (i > 0 ==> AlignUp(ps[i].begin) + HEADER <= ps[i].end))
    && (forall b <- live :: Placed(b, ps))
    && (forall b <- live :: InPool(b, ps[|ps| - 1], |ps| == 1) && b.size > 0 ==> b.start + b.size <= ptr)
    && (forall a <- live, b <- live :: a != b && a.size > 0 && b.size > 0 ==> Apart(a.start, a.size, b.start, b.size))
    && DataStart(ps[|ps| - 1], |ps| == 1) <= ptr <= ps[|ps| - 1].end
  }

  /** Every dynamic pool's header, at the aligned start of its memory, leads to the pool before. */
  ghost predicate HeadersLead(ps: seq<Pool>, headers: map<nat, nat>) {
    forall i :: 0 < i < |ps| ==>
      AlignUp(ps[i].begin) in headers && headers[AlignUp(ps[i].begin)] == ps[i - 1].begin
  }

  predicate FreshMemory(ps: seq<Pool>, raw: nat, size: nat) {
    forall i :: 0 <= i < |ps| ==> Apart(ps[i].begin, Length(ps[i]), raw, size)
  }

  /** No block reaches into a header, so what clients write leaves the headers alone. */
  lemma BlocksSpareHeaders(ps: seq<Pool>, ptr: nat, live: set<Block>, b: Block, i: nat)
    requires Sound(ps, ptr, live) && b in live && b.size > 0 && 0 < i < |ps|
    ensures Apart(b.start, b.size, AlignUp(ps[i].begin), HEADER)
  {
    assert Placed(b, ps);
    var j :| 0 <= j < |ps| && InPool(b, ps[j], j == 0);
    if j < i {
      assert Apart(ps[j].begin, Length(ps[j]), ps[i].begin, Length(ps[i]));
    } else if i < j {
      assert Apart(ps[i].begin, Length(ps[i]), ps[j].begin, Length(ps[j]));
    }
  }

  /** A block at the aligned free pointer. */
  lemma Carve(ps: seq<Pool>, ptr: nat, live: set<Block>, size: nat)
    requires Sound(ps, ptr, live) && AlignUp(ptr) + size <= ps[|ps| - 1].end
    ensures var b := Block(AlignUp(ptr), size);
            && Sound(ps, AlignUp(ptr) + size, live + {b})
            && ps[|ps| - 1].begin <= b.start
            && forall a <- live :: a.size > 0 && size > 0 ==> Apart(a.start, a.size, b.start, size)
  {
    hide AlignUp;
    var n := |ps| - 1;
    var b := Block(AlignUp(ptr), size);
    assert InPool(b, ps[n], n == 0);
    forall a <- live | a.size > 0 && size > 0 ensures Apart(a.start, a.size, b.start, size) {
      assert Placed(a, ps);
      var i :| 0 <= i < |ps| && InPool(a, ps[i], i == 0);
      if i < n {
        assert Apart(ps[i].begin, Length(ps[i]), ps[n].begin, Length(ps[n]));
      }
    }
  }

  /** A new pool. */
  lemma Grow(ps: seq<Pool>, ptr: nat, live: set<Block>, raw: nat, size: nat)
    requires Sound(ps, ptr, live) && FreshMemory(ps, raw, AllocSize(size))
    ensures Sound(ps + [Pool(raw, raw + AllocSize(size))], AlignUp(raw) + HEADER, live)
  {
    hide AlignUp;
    var p := Pool(raw, raw + AllocSize(size));
    var qs := ps + [p];
    RoomSuffices(raw, size);
    forall b <- live
      ensures Placed(b, qs) && (InPool(b, p, false) && b.size > 0 ==> b.start + b.size <= AlignUp(raw) + HEADER)
    {
      assert Placed(b, ps);
      var i :| 0 <= i < |ps| && InPool(b, ps[i], i == 0);
      assert InPool(b, qs[i], i == 0);
      assert Apart(ps[i].begin, Length(ps[i]), raw, AllocSize(size));
    }
    forall i, j | 0 <= i < j < |qs| ensures Apart(qs[i].begin, Length(qs[i]), qs[j].begin, Length(qs[j])) {
      if j == |ps| {
        assert Apart(ps[i].begin, Length(ps[i]), raw, AllocSize(size));
      }
    }
  }

  class MemoryPool {
    const staticMemory: nat
    var begin: nat
    var ptr: nat
    var end: nat
    /** The headers in memory: the `previous_begin` stored at an address. */
    var headers: map<nat, nat>
    /** Raw memory given back. */
    var freed: seq<nat>
    ghost var pools: seq<Pool>
    ghost var live: set<Block>

    ghost predicate Valid()
      reads this
    {
      && Sound(pools, ptr, live) && HeadersLead(pools, headers)
      && pools[0] == Pool(staticMemory, staticMemory + STATIC_SIZE)
      && pools[|pools| - 1] == Pool(begin, end)
    }

    constructor (staticMemory: nat)
      ensures Valid() && live == {} && pools == [Pool(staticMemory, staticMemory + STATIC_SIZE)] && freed == []
      ensures ptr == AlignUp(staticMemory)
    {
      this.staticMemory := staticMemory;
      begin, ptr, end := staticMemory, AlignUp(staticMemory), staticMemory + STATIC_SIZE;
      headers, freed := map[], [];
      pools, live := [Pool(staticMemory, staticMemory + STATIC_SIZE)], {};
    }

    /** `allocate_aligned`; `raw` is the raw memory handed out, should more be asked for. */
    method AllocateAligned(size: nat, raw: nat) returns (result: nat)
      requires Valid() && FreshMemory(pools, raw, AllocSize(size))
      modifies this`begin, this`ptr, this`end, this`headers, this`pools, this`live
      ensures Valid() && live == old(live) + {Block(result, size)}
      ensures result % ALIGNMENT == 0 && begin <= result && result + size <= end
      ensures forall b <- old(live) :: b.size > 0 && size > 0 ==> Apart(b.start, b.size, result, size)
      ensures if AlignUp(old(ptr)) + size <= old(end) then
                pools == old(pools) && headers == old(headers) && result == AlignUp(old(ptr))
              else
                && pools == old(pools) + [Pool(raw, raw + AllocSize(size))]
                && headers == old(headers)[AlignUp(raw) := old(begin)] && result == AlignUp(AlignUp(raw) + HEADER)
      ensures ptr == result + size
    {
      hide Sound, AlignUp, HeadersLead, InPool;
      LastFacts(pools, ptr, live);
      result := AlignUp(ptr);
      if result + size > end {
        var poolSize := DYNAMIC_SIZE;
        if poolSize < size {
          poolSize := size;
        }
        var allocSize := HEADER + (2 * ALIGNMENT - 2) + poolSize;
        Grow(pools, ptr, live, raw, size);
        RoomSuffices(raw, size);
        FreshHeader(pools, ptr, live, headers, raw, size);
        var pool := AlignUp(raw);
        headers := headers[pool := begin];
        begin, ptr, end := raw, pool + HEADER, raw + allocSize;
        pools := pools + [Pool(raw, raw + allocSize)];
        result := AlignUp(ptr);
      }
      Carve(pools, ptr, live, size);
      ptr := result + size;
      live := live + {Block(result, size)};
    }

    /** `clear`: follows the headers back, giving each dynamic pool back once, newest first. */
    method Clear()
      requires Valid()
      modifies this`begin, this`ptr, this`end, this`freed, this`pools, this`live
      ensures Valid() && live == {} && pools == old(pools)[..1]
      ensures freed == old(freed) + Begins(old(pools), |old(pools)|)
      ensures begin == staticMemory && ptr == AlignUp(staticMemory) && end == staticMemory + STATIC_SIZE
    {
      ghost var ps := pools;
      BeginsDiffer(ps, ptr, live);
      hide Sound, AlignUp, Begins;
      ghost var k := |ps|;
      while begin != staticMemory
        invariant 0 < k <= |ps| && begin == ps[k - 1].begin
        invariant freed + Begins(ps, k) == old(freed) + Begins(ps, |ps|)
        decreases k
      {
        assert k > 1;
        var previous := headers[AlignUp(begin)];
        freed := freed + [begin];
        BeginsStep(ps, k, freed);
        begin := previous;
        k := k - 1;
      }
      assert k == 1;
      NoBegins(ps);
      begin, ptr, end := staticMemory, AlignUp(staticMemory), staticMemory + STATIC_SIZE;
      pools, live := ps[..1], {};
      StaticSound(staticMemory);
    }
  }

  /** The addresses of the dynamic pools among the first `k`, newest first. */
  ghost function Begins(ps: seq<Pool>, k: nat): seq<nat>
    requires k <= |ps|
  {
    if k <= 1 then [] else [ps[k - 1].begin] + Begins(ps, k - 1)
  }

  lemma NoBegins(ps: seq<Pool>)
    requires ps != []
    ensures Begins(ps, 1) == []
  {
  }

  lemma BeginsStep(ps: seq<Pool>, k: nat, freed: seq<nat>)
    requires 1 < k <= |ps|
    ensures freed + Begins(ps, k) == freed + [ps[k - 1].begin] + Begins(ps, k - 1)
  {
  }

  lemma LastFacts(ps: seq<Pool>, ptr: nat, live: set<Block>)
    requires Sound(ps, ptr, live)
    ensures ps != [] && ps[|ps| - 1].begin <= ptr
  {
  }

  lemma BeginsDiffer(ps: seq<Pool>, ptr: nat, live: set<Block>)
    requires Sound(ps, ptr, live)
    ensures forall i, j :: 0 <= i < j < |ps| ==> ps[i].begin != ps[j].begin
  {
    forall i, j | 0 <= i < j < |ps| ensures ps[i].begin != ps[j].begin {
      assert Apart(ps[i].begin, Length(ps[i]), ps[j].begin, Length(ps[j]));
    }
  }

  lemma StaticSound(at: nat)
    ensures Sound([Pool(at, at + STATIC_SIZE)], AlignUp(at), {})
  {
  }

  /** A new header is written apart from the older ones. */
  lemma FreshHeader(ps: seq<Pool>, ptr: nat, live: set<Block>, headers: map<nat, nat>, raw: nat, size: nat)
    requires Sound(ps, ptr, live) && HeadersLead(ps, headers) && FreshMemory(ps, raw, AllocSize(size))
    ensures HeadersLead(ps + [Pool(raw, raw + AllocSize(size))], headers[AlignUp(raw) := ps[|ps| - 1].begin])
  {
    var qs := ps + [Pool(raw, raw + AllocSize(size))];
    var hs := headers[AlignUp(raw) := ps[|ps| - 1].begin];
    forall i | 0 < i < |qs| ensures AlignUp(qs[i].begin) in hs && hs[AlignUp(qs[i].begin)] == qs[i - 1].begin {
      if i < |ps| {
        assert Apart(ps[i].begin, Length(ps[i]), raw, AllocSize(size));
        assert AlignUp(ps[i].begin) != AlignUp(raw);
      }
    }
  }
}
