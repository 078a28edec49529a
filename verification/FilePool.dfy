/** The first-fit, coalescing byte pool that holds file contents.

    `header` is the (size, free) pair stored in front of a block; stale headers of
    swallowed blocks stay in memory, exactly as in the source. `starts` are the
    offsets of the blocks that are really there. */
module FilePool {
  import opened Words

  const HDR: nat := 8        // sizeof(fs_pool_block_t)
  const MIN_SPLIT: nat := 24 // header plus 16 bytes

  datatype Header = Header(size: nat, free: bool)

  function Round4(n: nat): (r: nat)
    ensures r % 4 == 0 && n <= r < n + 4
  {
    (n + 3) / 4 * 4
  }

  /** The offset just past block `b`. */
  function End(header: map<nat, Header>, b: nat): nat
    requires b in header
  {
    b + HDR + header[b].size
  }

  /** Block `b` ends at the end of the pool or where another block begins. */
  ghost predicate Linked(header: map<nat, Header>, starts: set<nat>, bytes: nat, b: nat) {
    b in header && End(header, b) <= bytes && (End(header, b) == bytes || End(header, b) in starts)
  }

  /** Blocks tile [0, bytes): the first is at 0, each ends where the next begins,
      and the last ends at `bytes`. */
  ghost predicate Tiling(header: map<nat, Header>, starts: set<nat>, bytes: nat) {
    && 0 in starts
    && (forall b {:trigger Linked(header, starts, bytes, b)} :: b in starts ==> Linked(header, starts, bytes, b))
    && (forall b :: b in starts ==> b in header)
    && (forall a, b :: a in starts && b in starts && a < b ==> End(header, a) <= b)
  }

  /** Is `b` a free block directly followed by another free block? */
  ghost predicate Mergeable(header: map<nat, Header>, starts: set<nat>, b: nat) {
    && b in starts && b in header && header[b].free
    && End(header, b) in starts && End(header, b) in header && header[End(header, b)].free
  }

  ghost predicate Coalesced(header: map<nat, Header>, starts: set<nat>) {
    forall b :: b in starts ==> !Mergeable(header, starts, b)
  }

  /** Every byte belongs to exactly one block. */
  lemma {:induction false} TilesEveryByte(header: map<nat, Header>, starts: set<nat>, bytes: nat, x: nat) returns (b: nat)
    requires Tiling(header, starts, bytes) && x < bytes
    ensures b in starts && b <= x < End(header, b)
    ensures forall a :: a in starts && a <= x < End(header, a) ==> a == b
  {
    b := 0;
    while End(header, b) <= x
      invariant b in starts && b <= x
      decreases x - b
    {
      assert Linked(header, starts, bytes, b);
      b := End(header, b);
    }
  }

  /** Every byte of [lo, hi) belongs to a free block. */
  ghost predicate FreeRun(header: map<nat, Header>, starts: set<nat>, lo: nat, hi: nat) {
    forall x {:trigger InFree(header, starts, x)} :: lo <= x < hi ==> InFree(header, starts, x)
  }

  ghost predicate InFree(header: map<nat, Header>, starts: set<nat>, x: nat) {
    exists b :: b in starts && b in header && header[b].free && b <= x < End(header, b)
  }

  lemma FreeNeighboursMerge(header: map<nat, Header>, starts: set<nat>, bytes: nat, b: nat)
    requires Tiling(header, starts, bytes) && b in starts && header[b].free && InFree(header, starts, End(header, b))
    ensures Mergeable(header, starts, b)
  {
  }

  /** In a coalesced pool a free run never spans two blocks, so a request that fits
      no free block fits no contiguous free run either. */
  lemma FreeRunInOneBlock(header: map<nat, Header>, starts: set<nat>, bytes: nat, lo: nat, hi: nat) returns (b: nat)
    requires Tiling(header, starts, bytes) && Coalesced(header, starts)
    requires lo < hi && FreeRun(header, starts, lo, hi)
    ensures b in starts && header[b].free && b <= lo && hi <= End(header, b)
  {
    assert InFree(header, starts, lo);
    b :| b in starts && b in header && header[b].free && b <= lo < End(header, b);
    if End(header, b) < hi {
      FreeNeighboursMerge(header, starts, bytes, b);
    }
  }

  /** So a request that no free block holds fits no contiguous free run either, header
      included. */
  lemma NoFitNoRun(header: map<nat, Header>, starts: set<nat>, bytes: nat, need: nat, lo: nat, hi: nat)
    requires Tiling(header, starts, bytes) && Coalesced(header, starts)
    requires forall b :: b in starts ==> !Fits(header, starts, need, b)
    requires lo <= hi && FreeRun(header, starts, lo, hi)
    ensures hi - lo < HDR + need
  {
    if lo < hi {
      var b := FreeRunInOneBlock(header, starts, bytes, lo, hi);
      assert !Fits(header, starts, need, b);
    }
  }

  lemma NothingFits(header: map<nat, Header>, starts: set<nat>, bytes: nat, need: nat)
    requires Tiling(header, starts, bytes) && Coalesced(header, starts)
    requires forall b :: b in starts ==> !Fits(header, starts, need, b)
    ensures forall lo: nat, hi: nat :: lo <= hi && FreeRun(header, starts, lo, hi) ==> hi - lo < HDR + need
  {
    hide Tiling, Coalesced, FreeRun, Fits;
    forall lo: nat, hi: nat | lo <= hi && FreeRun(header, starts, lo, hi) ensures hi - lo < HDR + need {
      NoFitNoRun(header, starts, bytes, need, lo, hi);
    }
  }

  function Merged(header: map<nat, Header>, b: nat): map<nat, Header>
    requires b in header && End(header, b) in header
  {
    header[b := Header(header[b].size + HDR + header[End(header, b)].size, true)]
  }

  lemma MergeTiles(header: map<nat, Header>, starts: set<nat>, bytes: nat, b: nat)
    requires Tiling(header, starts, bytes) && b in starts && End(header, b) in starts
    ensures Tiling(Merged(header, b), starts - {End(header, b)}, bytes)
  {
    TilingFacts(header, starts, bytes, b);
    hide Linked;
    var next := End(header, b);
    var starts' := starts - {next};
    forall a | a in starts' ensures Linked(Merged(header, b), starts', bytes, a) {
      TilingFacts(header, starts, bytes, a);
      MergeLinked(header, starts, bytes, b, next, a);
    }
  }

  lemma MergeLinked(header: map<nat, Header>, starts: set<nat>, bytes: nat, b: nat, next: nat, a: nat)
    requires Linked(header, starts, bytes, b) && next == End(header, b) && Linked(header, starts, bytes, next)
    requires Linked(header, starts, bytes, a) && a != next && (a != b ==> End(header, a) != next)
    ensures Linked(Merged(header, b), starts - {next}, bytes, a)
  {
  }

  function Split(header: map<nat, Header>, b: nat, size: nat): map<nat, Header>
    requires b in header && size + HDR <= header[b].size
  {
    header[b := Header(size, false)][b + HDR + size := Header(header[b].size - size - HDR, true)]
  }

  lemma SplitTiles(header: map<nat, Header>, starts: set<nat>, bytes: nat, b: nat, size: nat)
    requires Tiling(header, starts, bytes) && b in starts && size + HDR <= header[b].size
    ensures Tiling(Split(header, b, size), starts + {b + HDR + size}, bytes)
  {
    TilingFacts(header, starts, bytes, b);
    SplitApart(header, starts, bytes, b, size);
    hide Linked, Split;
    var header', starts' := Split(header, b, size), starts + {b + HDR + size};
    forall a | a in starts' ensures Linked(header', starts', bytes, a) && a in header' {
      SplitLinked(header, starts, bytes, b, size, a);
      LinkedIn(header', starts', bytes, a);
    }
  }

  lemma LinkedIn(header: map<nat, Header>, starts: set<nat>, bytes: nat, a: nat)
    requires Linked(header, starts, bytes, a)
    ensures a in header
  {
  }

  lemma SplitApart(header: map<nat, Header>, starts: set<nat>, bytes: nat, b: nat, size: nat)
    requires Tiling(header, starts, bytes) && b in starts && b in header && size + HDR <= header[b].size
    ensures var header', starts' := Split(header, b, size), starts + {b + HDR + size};
      forall x, y :: x in starts' && y in starts' && x < y ==> x in header' && End(header', x) <= y
  {
    hide Linked;
  }

  lemma SplitLinked(header: map<nat, Header>, starts: set<nat>, bytes: nat, b: nat, size: nat, a: nat)
    requires Linked(header, starts, bytes, b) && size + HDR <= header[b].size
    requires a == b + HDR + size || (a in starts && Linked(header, starts, bytes, a))
    ensures Linked(Split(header, b, size), starts + {b + HDR + size}, bytes, a)
  {
  }

  class Pool {
    const base: array<byte>
    var header: map<nat, Header>
    ghost var starts: set<nat>

    ghost predicate Valid()
      reads this
    {
      Tiling(header, starts, base.Length) && Coalesced(header, starts)
    }

    ghost predicate Live(p: nat)
      reads this
    {
      p >= HDR && p - HDR in starts && p - HDR in header && !header[p - HDR].free
    }

    /** The capacity of the live block whose payload starts at `p`. */
    ghost function Capacity(p: nat): nat
      requires Live(p)
      reads this
    {
      header[p - HDR].size
    }

    /** `fs_set_pool` followed by `fpool_init`. */
    constructor (bytes: nat)
      requires bytes > HDR
      ensures Valid() && fresh(base) && base.Length == bytes
      ensures starts == {0} && header == map[0 := Header(bytes - HDR, true)]
    {
      base := new byte[bytes];
      header := map[0 := Header(bytes - HDR, true)];
      starts := {0};
    }

    /** `fpool_init`: one free block again, whatever was there. */
    method Reset()
      requires base.Length > HDR
      modifies this
      ensures Valid()
      ensures starts == {0} && header[0] == Header(base.Length - HDR, true)
    {
      header := header[0 := Header(base.Length - HDR, true)];
      starts := {0};
    }

    /** `fpool_coalesce`: live blocks stay as they are, free runs become one block. */
    method Coalesce()
      requires Tiling(header, starts, base.Length)
      modifies this
      ensures Valid() && starts <= old(starts)
      ensures SameLive(old(header), old(starts), header, starts)
    {
      hide Tiling, Mergeable, CoalescedBelow, Coalesced, SameLive;
      var off := 0;
      TilingFacts(header, starts, base.Length, off);
      NothingBelow(header, starts);
      SameLiveSelf(header, starts);
      while off + HDR <= base.Length
        invariant Tiling(header, starts, base.Length) && off in starts && starts <= old(starts)
        invariant SameLive(old(header), old(starts), header, starts)
        invariant CoalescedBelow(header, starts, off)
        decreases |starts|, base.Length - off
      {
        TilingFacts(header, starts, base.Length, off);
        MergeableHere(header, starts, base.Length, off);
        var next := End(header, off);
        if header[off].free && next + HDR <= base.Length && header[next].free {
          MergeTiles(header, starts, base.Length, off);
          MergeScan(header, starts, base.Length, off);
          SameLiveMerge(old(header), old(starts), header, starts, off);
          header := header[off := Header(header[off].size + HDR + header[next].size, true)];
          starts := starts - {next};
        } else {
          AdvanceScan(header, starts, base.Length, off);
          if next >= base.Length { break; }
          off := next;
        }
      }
      TilingFacts(header, starts, base.Length, off);
    }

    /** `fpool_alloc`; -1 is the null pointer. It fails only when no free run can
        hold the rounded request, and then it changes nothing. */
    method Alloc(bytes: nat) returns (p: int)
      requires Valid()
      modifies this
      ensures Valid()
      ensures p == -1 || p >= HDR
      ensures p == -1 ==> header == old(header) && starts == old(starts)
      ensures p == -1 <==> bytes == 0 || forall b :: b in old(starts) ==> !old(Fits(header, starts, Round4(bytes), b))
      ensures p != -1 ==> p - HDR in header && Round4(bytes) <= header[p - HDR].size < Round4(bytes) + 8 + 16
      ensures p == -1 && bytes > 0 ==> forall lo: nat, hi: nat :: lo <= hi && FreeRun(header, starts, lo, hi) ==> hi - lo < HDR + Round4(bytes)
      ensures p != -1 ==>
        var b := p - HDR;
        && old(FirstFit(header, starts, Round4(bytes), b))
        && header == TakenHeader(old(header), b, Round4(bytes))
        && starts == TakenStarts(old(header), old(starts), b, Round4(bytes))
    {
      if bytes == 0 { return -1; }
      var b := Search(Round4(bytes));
      if b == -1 {
        NothingFits(header, starts, base.Length, Round4(bytes));
        return -1;
      }
      Occupy(b, Round4(bytes));
      return b + HDR;
    }

    /** The first-fit walk of `fpool_alloc`. */
    method Search(need: nat) returns (b: int)
      requires Valid()
      ensures b == -1 || b >= 0
      ensures b == -1 <==> forall a :: a in starts ==> !Fits(header, starts, need, a)
      ensures b != -1 ==> FirstFit(header, starts, need, b)
    {
      hide Tiling, Coalesced, Fits;
      var off := 0;
      TilingFacts(header, starts, base.Length, off);
      while off + HDR <= base.Length
        invariant off in starts
        invariant forall a :: a in starts && a < off ==> !Fits(header, starts, need, a)
      {
        TilingFacts(header, starts, base.Length, off);
        FitsHere(header, starts, need, off);
        if header[off].free && header[off].size >= need { return off; }
        if off + HDR + header[off].size >= base.Length { break; }
        off := off + HDR + header[off].size;
      }
      TilingFacts(header, starts, base.Length, off);
      NoStartPast(header, starts, base.Length, off);
      return -1;
    }

    /** Marking the found block, after splitting it when the rest is worth it. */
    method Occupy(b: nat, need: nat)
      requires Valid() && Fits(header, starts, need, b)
      modifies this
      ensures Valid()
      ensures header == TakenHeader(old(header), b, need)
      ensures starts == TakenStarts(old(header), old(starts), b, need)
    {
      TakeKeeps(header, starts, base.Length, b, need);
      hide Tiling, Coalesced;
      var extra := header[b].size - need;
      if extra >= MIN_SPLIT {
        starts := starts + {b + HDR + need};
        header := header[b := Header(need, false)][b + HDR + need := Header(extra - HDR, true)];
      } else {
        header := header[b := Header(header[b].size, false)];
      }
    }

    /** `fpool_free` of null or of a live block. */
    method Free(p: int)
      requires Valid() && (p == -1 || (p >= HDR && Live(p)))
      modifies this
      ensures Valid()
      ensures p == -1 ==> header == old(header) && starts == old(starts)
      ensures starts <= old(starts) && SameLive(Freed(old(header), p), old(starts), header, starts)
    {
      if p == -1 { return; }
      FlagTiles(header, starts, base.Length, p - HDR, true);
      header := header[p - HDR := Header(header[p - HDR].size, true)];
      Coalesce();
    }
  }

  /** The headers after `b->free = 1`. */
  ghost function Freed(header: map<nat, Header>, p: int): map<nat, Header> {
    if p >= HDR && p - HDR in header then header[p - HDR := Header(header[p - HDR].size, true)] else header
  }

  lemma FitsHere(header: map<nat, Header>, starts: set<nat>, need: nat, b: nat)
    ensures Fits(header, starts, need, b) <==> b in starts && b in header && header[b].free && header[b].size >= need
  {
  }

  lemma NoStartPast(header: map<nat, Header>, starts: set<nat>, bytes: nat, b: nat)
    requires Tiling(header, starts, bytes) && b in starts && End(header, b) >= bytes
    ensures forall a :: a in starts ==> a <= b
  {
    forall a | a in starts ensures a <= b {
      assert Linked(header, starts, bytes, a);
    }
  }

  ghost predicate CoalescedBelow(header: map<nat, Header>, starts: set<nat>, off: nat) {
    forall b :: b in starts && b < off ==> !Mergeable(header, starts, b)
  }

  lemma NothingBelow(header: map<nat, Header>, starts: set<nat>)
    ensures CoalescedBelow(header, starts, 0)
  {
  }

  lemma MergeableHere(header: map<nat, Header>, starts: set<nat>, bytes: nat, off: nat)
    requires Tiling(header, starts, bytes) && off in starts
    ensures Mergeable(header, starts, off) <==>
      header[off].free && End(header, off) + HDR <= bytes && End(header, off) in header && header[End(header, off)].free
  {
    TilingFacts(header, starts, bytes, off);
  }

  lemma AdvanceScan(header: map<nat, Header>, starts: set<nat>, bytes: nat, off: nat)
    requires Tiling(header, starts, bytes) && off in starts
    requires CoalescedBelow(header, starts, off) && !Mergeable(header, starts, off)
    ensures CoalescedBelow(header, starts, End(header, off))
    ensures End(header, off) >= bytes ==> Coalesced(header, starts)
  {
    forall b | b in starts && (b < End(header, off) || End(header, off) >= bytes)
      ensures !Mergeable(header, starts, b)
    {
      assert Linked(header, starts, bytes, b);
    }
  }

  lemma MergeScan(header: map<nat, Header>, starts: set<nat>, bytes: nat, off: nat)
    requires Tiling(header, starts, bytes) && CoalescedBelow(header, starts, off) && Mergeable(header, starts, off)
    ensures CoalescedBelow(Merged(header, off), starts - {End(header, off)}, off)
  {
  }

  /** The block a first-fit search stops at. */
  ghost predicate FirstFit(header: map<nat, Header>, starts: set<nat>, need: nat, b: nat) {
    && Fits(header, starts, need, b)
    && forall a :: a in starts && a < b ==> !Fits(header, starts, need, a)
  }

  ghost predicate Fits(header: map<nat, Header>, starts: set<nat>, need: nat, b: nat) {
    b in starts && b in header && header[b].free && header[b].size >= need
  }

  /** Taking block `b`: the rest is split off when it can hold a header and 16 bytes. */
  function TakenHeader(header: map<nat, Header>, b: nat, need: nat): map<nat, Header>
    requires b in header && need <= header[b].size
  {
    if header[b].size - need >= MIN_SPLIT then Split(header, b, need)
    else header[b := Header(header[b].size, false)]
  }

  ghost function TakenStarts(header: map<nat, Header>, starts: set<nat>, b: nat, need: nat): set<nat>
    requires b in header && need <= header[b].size
  {
    if header[b].size - need >= MIN_SPLIT then starts + {b + HDR + need} else starts
  }

  lemma TakeKeeps(header: map<nat, Header>, starts: set<nat>, bytes: nat, b: nat, need: nat)
    requires Tiling(header, starts, bytes) && Coalesced(header, starts) && Fits(header, starts, need, b)
    ensures Tiling(TakenHeader(header, b, need), TakenStarts(header, starts, b, need), bytes)
    ensures Coalesced(TakenHeader(header, b, need), TakenStarts(header, starts, b, need))
  {
    hide Tiling, Coalesced;
    TilingFacts(header, starts, bytes, b);
    if header[b].size - need >= MIN_SPLIT {
      SplitTiles(header, starts, bytes, b, need);
      SplitCoalesced(header, starts, bytes, b, need);
    } else {
      TakeWhole(header, starts, bytes, b);
    }
  }

  lemma TakeWhole(header: map<nat, Header>, starts: set<nat>, bytes: nat, b: nat)
    requires Tiling(header, starts, bytes) && Coalesced(header, starts) && b in starts
    ensures var header' := Flagged(header, b, false); Tiling(header', starts, bytes) && Coalesced(header', starts)
  {
    FlagTiles(header, starts, bytes, b, false);
    hide Tiling;
    forall a | a in starts ensures !Mergeable(Flagged(header, b, false), starts, a) {
      assert !Mergeable(header, starts, a);
    }
  }

  function Flagged(header: map<nat, Header>, b: nat, free: bool): map<nat, Header>
    requires b in header
  {
    header[b := Header(header[b].size, free)]
  }

  /** Only the sizes matter for the tiling. */
  lemma FlagTiles(header: map<nat, Header>, starts: set<nat>, bytes: nat, b: nat, free: bool)
    requires Tiling(header, starts, bytes) && b in starts
    ensures Tiling(Flagged(header, b, free), starts, bytes)
  {
    hide Linked;
    forall a | a in starts ensures Linked(Flagged(header, b, free), starts, bytes, a) {
      FlagLinked(header, starts, bytes, b, free, a);
    }
  }

  lemma FlagLinked(header: map<nat, Header>, starts: set<nat>, bytes: nat, b: nat, free: bool, a: nat)
    requires b in header && Linked(header, starts, bytes, a)
    ensures Linked(Flagged(header, b, free), starts, bytes, a)
  {
  }

  lemma SplitCoalesced(header: map<nat, Header>, starts: set<nat>, bytes: nat, b: nat, need: nat)
    requires Tiling(header, starts, bytes) && Coalesced(header, starts)
    requires Fits(header, starts, need + HDR, b)
    ensures Coalesced(Split(header, b, need), starts + {b + HDR + need})
  {
  }

  lemma TakeSameLive(header: map<nat, Header>, starts: set<nat>, bytes: nat, b: nat, need: nat)
    requires Tiling(header, starts, bytes) && Fits(header, starts, need, b)
    ensures var header', starts' := TakenHeader(header, b, need), TakenStarts(header, starts, b, need);
      && b in starts' && b in header' && !header'[b].free && header'[b].size >= need
      && (forall a :: a in starts && a in header && !header[a].free ==> a in starts' && a in header' && header'[a] == header[a])
      && (forall a :: a in starts' && a in header' && !header'[a].free ==> a == b || (a in starts && a in header && !header[a].free))
  {
  }

  /** Payloads of different live blocks are disjoint and inside the pool. */
  lemma PayloadsApart(header: map<nat, Header>, starts: set<nat>, bytes: nat, a: nat, b: nat)
    requires Tiling(header, starts, bytes) && a in starts && b in starts
    ensures End(header, a) <= bytes && End(header, b) <= bytes
    ensures a != b ==> End(header, a) <= b || End(header, b) <= a
  {
    assert Linked(header, starts, bytes, a) && Linked(header, starts, bytes, b);
  }

  /** What the tiling says about one block. */
  lemma TilingFacts(header: map<nat, Header>, starts: set<nat>, bytes: nat, b: nat)
    requires Tiling(header, starts, bytes)
    ensures 0 in starts
    ensures b in starts ==> Linked(header, starts, bytes, b)
    ensures b in starts && End(header, b) in starts ==> End(header, b) in header && End(header, b) + HDR <= bytes
    ensures b in starts ==> forall a :: a in starts && a < b ==> a in header && End(header, a) <= b
    ensures b in starts ==> forall a :: a in starts && a > b ==> End(header, b) <= a
  {
    if b in starts && End(header, b) in starts {
      assert Linked(header, starts, bytes, End(header, b));
    }
  }

  /** The live blocks are the same, with the same sizes. */
  ghost predicate SameLive(header: map<nat, Header>, starts: set<nat>, header': map<nat, Header>, starts': set<nat>) {
    && (forall b :: b in starts && b in header && !header[b].free ==>
          b in starts' && b in header' && header'[b] == header[b])
    && (forall b :: b in starts' && b in header' && !header'[b].free ==>
          b in starts && b in header && !header[b].free)
  }

  lemma SameLiveSelf(header: map<nat, Header>, starts: set<nat>)
    ensures SameLive(header, starts, header, starts)
  {
  }

  lemma SameLiveMerge(header0: map<nat, Header>, starts0: set<nat>, header: map<nat, Header>, starts: set<nat>, b: nat)
    requires SameLive(header0, starts0, header, starts) && Mergeable(header, starts, b)
    ensures SameLive(header0, starts0, Merged(header, b), starts - {End(header, b)})
  {
  }
}
