/** The file-data table over the pool: slot i owns at most one pool block. */
module Files {
  import opened Words
  import opened FilePool

  const MAX_F: nat := 96
  const MAX_FILE_DATA: nat := 0x200_0000 // 32 MiB

  /** Slot i points at a live block that has room for its bytes and a NUL. */
  ghost predicate OwnsBlock(header: map<nat, Header>, starts: set<nat>, p: int, size: nat) {
    && p >= HDR && p - HDR in starts && p - HDR in header
    && !header[p - HDR].free && size < header[p - HDR].size
  }

  /** The table and the pool agree: each slot owns a block of its own, and every
      live block belongs to some slot (nothing leaks). */
  ghost predicate Consistent(header: map<nat, Header>, starts: set<nat>, fdata: seq<int>, fsize: seq<nat>) {
    && |fdata| == |fsize| == MAX_F
    && (forall i :: 0 <= i < MAX_F ==> fdata[i] == -1 || OwnsBlock(header, starts, fdata[i], fsize[i]))
    && (forall i, j :: 0 <= i < j < MAX_F && fdata[i] != -1 ==> fdata[i] != fdata[j])
    && (forall b :: b in starts && b in header && !header[b].free ==> b + HDR in fdata)
  }

  /** The bytes of a slot, read from pool memory. */
  ghost function Bytes(mem: seq<byte>, p: int, size: nat): seq<byte> {
    if 0 <= p <= p + size <= |mem| then mem[p..p + size] else []
  }

  class FileData {
    const pool: Pool
    var fdata: seq<int>   // payload offset in the pool, -1 for null
    var fsize: seq<nat>

    constructor (pool: Pool)
      requires pool.Valid() && pool.starts == {0} && pool.header[0].free
      ensures Valid() && this.pool == pool
      ensures forall i :: 0 <= i < MAX_F ==> fdata[i] == -1 && fsize[i] == 0
    {
      this.pool := pool;
      fdata := seq(MAX_F, _ => -1);
      fsize := seq(MAX_F, _ => 0);
    }

    ghost predicate Valid()
      reads this, pool
    {
      pool.Valid() && Consistent(pool.header, pool.starts, fdata, fsize)
    }

    ghost function Contents(i: nat): seq<byte>
      requires i < |fdata| && i < |fsize|
      reads this, pool, pool.base
    {
      Bytes(pool.base[..], fdata[i], fsize[i])
    }

    /** The bytes of every slot. */
    ghost function All(): (r: seq<seq<byte>>)
      requires |fdata| == |fsize| == MAX_F
      reads this, pool, pool.base
      ensures |r| == MAX_F && forall i :: 0 <= i < MAX_F ==> r[i] == Contents(i)
    {
      seq(MAX_F, i requires 0 <= i < MAX_F && i < |fdata| && i < |fsize| reads this, pool, pool.base => Contents(i))
    }

    /** `fdata_resize`. Codes: -1 bad slot, -2 too large, -3 no room. On success the
        common prefix of the file survives; on -3 nothing at all changes. In every
        case all other files keep their size and bytes. */
    method Resize(idx: int, size: nat) returns (code: int)
      requires Valid()
      modifies this, pool, pool.base
      ensures Valid()
      ensures code == -1 <==> !(0 <= idx < MAX_F)
      ensures code == -2 <==> 0 <= idx < MAX_F && size > MAX_FILE_DATA - 1
      ensures code == -3 <==>
        (0 <= idx < MAX_F && 0 < size <= MAX_FILE_DATA - 1 && old(NoRoom(pool.header, pool.starts, size)))
      ensures code in {-1, -2, -3, 0}
      ensures code != 0 ==>
        && fdata == old(fdata) && fsize == old(fsize)
        && pool.header == old(pool.header) && pool.base[..] == old(pool.base[..])
      ensures |fdata| == |fsize| == MAX_F
      ensures code == 0 ==>
        && fsize == old(fsize)[idx := size] && fdata == old(fdata)[idx := fdata[idx]]
        && (size == 0 <==> fdata[idx] == -1)
        && |Contents(idx)| == size
        && (old(fdata[idx]) != -1 ==> Agree(Contents(idx), old(Contents(idx))))
        && (size > 0 && old(fdata[idx]) == -1 ==>
              FirstBlock(old(pool.header), old(pool.starts), size, fdata[idx], pool.header, pool.starts))
        && (size == 0 && old(fdata[idx]) == -1 ==> pool.header == old(pool.header) && pool.starts == old(pool.starts))
      ensures forall i :: 0 <= i < MAX_F && i != idx ==> Contents(i) == old(Contents(i)) && fsize[i] == old(fsize[i])
    {
      if !(0 <= idx < MAX_F) { return -1; }
      if size > MAX_FILE_DATA - 1 { return -2; }
      if size == 0 {
        Release(idx);
        return 0;
      }
      code := Grow(idx, size);
    }

    /** The allocating branch: take the new block, copy, then free the old one. */
    method Grow(idx: nat, size: nat) returns (code: int)
      requires Valid() && idx < MAX_F && 0 < size <= MAX_FILE_DATA - 1
      modifies this, pool, pool.base
      ensures Valid()
      ensures code == if old(NoRoom(pool.header, pool.starts, size)) then -3 else 0
      ensures code != 0 ==>
        && fdata == old(fdata) && fsize == old(fsize)
        && pool.header == old(pool.header) && pool.starts == old(pool.starts) && pool.base[..] == old(pool.base[..])
      ensures |fdata| == |fsize| == MAX_F
      ensures code == 0 ==>
        && fsize == old(fsize)[idx := size] && fdata[idx] != -1 && fdata == old(fdata)[idx := fdata[idx]]
        && |Contents(idx)| == size
        && (old(fdata[idx]) != -1 ==> Agree(Contents(idx), old(Contents(idx))))
        && (old(fdata[idx]) == -1 ==> FirstBlock(old(pool.header), old(pool.starts), size, fdata[idx], pool.header, pool.starts))
      ensures forall i :: 0 <= i < MAX_F && i != idx ==> Contents(i) == old(Contents(i)) && fsize[i] == old(fsize[i])
    {
      hide Tiling, Coalesced, Consistent, SameLive, TakenHeader, TakenStarts, Fits;
      ghost var h0, s0, n, m0 := pool.header, pool.starts, pool.base.Length, pool.base[..];
      SlotFacts(h0, s0, n, fdata, fsize, idx);
      var p := pool.Alloc(size + 1);
      if p == -1 { return -3; }
      AllocFacts(h0, s0, n, fdata, fsize, idx, p - HDR, Round4(size + 1));
      FillBlock(fdata[idx], if fdata[idx] == -1 then 0 else fsize[idx], p, size);
      OthersUntouched(h0, s0, n, fdata, fsize, idx, p - HDR, size, m0, pool.base[..]);
      ghost var h1, s1 := pool.header, pool.starts;
      pool.Free(fdata[idx]);
      GrowConsistent(h0, s0, n, fdata, fsize, idx, size, p - HDR, h1, s1, pool.header, pool.starts);
      fdata, fsize := fdata[idx := p], fsize[idx := size];
      return 0;
    }

    /** Overwriting part of a file in place: the loops of the write calls. */
    method Store(idx: nat, at: nat, bytes: seq<byte>)
      requires Valid() && idx < MAX_F && fdata[idx] != -1 && at + |bytes| <= fsize[idx]
      modifies pool.base
      ensures Valid()
      ensures |Contents(idx)| == fsize[idx] && |old(Contents(idx))| == fsize[idx]
      ensures Contents(idx) == old(Contents(idx))[..at] + bytes + old(Contents(idx))[at + |bytes|..]
      ensures forall i :: 0 <= i < MAX_F && i != idx ==> Contents(i) == old(Contents(i))
    {
      ghost var m0 := pool.base[..];
      SlotFacts(pool.header, pool.starts, pool.base.Length, fdata, fsize, idx);
      var p := fdata[idx];
      for k := 0 to |bytes|
        invariant forall j :: p + at <= j < p + at + k ==> pool.base[j] == bytes[j - p - at]
        invariant forall j :: 0 <= j < pool.base.Length && !(p + at <= j < p + at + k) ==> pool.base[j] == m0[j]
      {
        pool.base[p + at + k] := bytes[k];
      }
      StoreElsewhere(pool.header, pool.starts, pool.base.Length, fdata, fsize, idx, m0, pool.base[..]);
      hide Consistent, Tiling;
    }

    /** The copy loop and the terminating NUL of `fdata_resize`. */
    method FillBlock(q: int, have: nat, p: nat, size: nat)
      requires p + size < pool.base.Length
      requires have == 0 || (0 <= q && q + have <= pool.base.Length && (q + have <= p || p + size <= q))
      modifies pool.base
      ensures Agree(pool.base[p..p + size], if have == 0 then [] else old(pool.base[q..q + have]))
      ensures forall k :: 0 <= k < pool.base.Length && !(p <= k <= p + size) ==> pool.base[k] == old(pool.base[k])
    {
      var copy := if have > size then size else have;
      for j := 0 to copy
        invariant forall k :: p <= k < p + j ==> pool.base[k] == old(pool.base[..])[q + (k - p)]
        invariant forall k :: 0 <= k < pool.base.Length && !(p <= k < p + j) ==> pool.base[k] == old(pool.base[k])
      {
        pool.base[p + j] := pool.base[q + j];
      }
      pool.base[p + size] := 0;
      ghost var had := if have == 0 then [] else old(pool.base[q..q + have]);
      forall k | 0 <= k < copy ensures pool.base[p..p + size][k] == had[k] {
        assert pool.base[p + k] == old(pool.base[..])[q + (p + k - p)];
      }
    }

    /** Giving a slot's block back: the `size == 0` branch, and file deletion. */
    method Release(idx: nat)
      requires Valid() && idx < MAX_F
      modifies this, pool
      ensures Valid()
      ensures fdata == old(fdata)[idx := -1] && fsize == old(fsize)[idx := 0]
      ensures Contents(idx) == [] && forall i :: 0 <= i < MAX_F && i != idx ==> Contents(i) == old(Contents(i))
      ensures old(fdata[idx]) == -1 ==> pool.header == old(pool.header) && pool.starts == old(pool.starts)
    {
      ghost var h0, s0 := pool.header, pool.starts;
      assert fdata[idx] == -1 || OwnsBlock(h0, s0, fdata[idx], fsize[idx]);
      hide Consistent, SameLive;
      pool.Free(fdata[idx]);
      ReleaseConsistent(h0, s0, fdata, fsize, idx, pool.header, pool.starts);
      fdata, fsize := fdata[idx := -1], fsize[idx := 0];
    }
  }

  /** Payload `p` is the first block that fits `size` bytes and a NUL, now taken. */
  ghost predicate FirstBlock(header: map<nat, Header>, starts: set<nat>, size: nat, p: int,
                             header': map<nat, Header>, starts': set<nat>)
  {
    && p >= HDR && FirstFit(header, starts, Round4(size + 1), p - HDR)
    && header' == TakenHeader(header, p - HDR, Round4(size + 1))
    && starts' == TakenStarts(header, starts, p - HDR, Round4(size + 1))
  }

  /** No free block holds `size` bytes and a NUL. */
  ghost predicate NoRoom(header: map<nat, Header>, starts: set<nat>, size: nat) {
    forall b :: b in starts ==> !Fits(header, starts, Round4(size + 1), b)
  }

  lemma SlotFacts(header: map<nat, Header>, starts: set<nat>, bytes: nat, fdata: seq<int>, fsize: seq<nat>, idx: nat)
    requires Tiling(header, starts, bytes) && Consistent(header, starts, fdata, fsize) && idx < MAX_F
    ensures |fdata| == |fsize| == MAX_F
    ensures fdata[idx] == -1 || (fdata[idx] >= HDR && fdata[idx] + fsize[idx] < bytes)
  {
    assert fdata[idx] == -1 || OwnsBlock(header, starts, fdata[idx], fsize[idx]);
    TilingFacts(header, starts, bytes, if fdata[idx] == -1 then 0 else fdata[idx] - HDR);
  }

  /** Two files agree on their common prefix. */
  ghost predicate Agree(a: seq<byte>, b: seq<byte>) {
    var n := if |a| < |b| then |a| else |b|;
    a[..n] == b[..n]
  }

  /** After freeing slot idx's block, a pool with the other live blocks is consistent. */
  lemma ReleaseConsistent(header: map<nat, Header>, starts: set<nat>, fdata: seq<int>, fsize: seq<nat>, idx: nat,
                          header': map<nat, Header>, starts': set<nat>)
    requires Consistent(header, starts, fdata, fsize) && idx < MAX_F
    requires SameLive(Freed(header, fdata[idx]), starts, header', starts')
    ensures Consistent(header', starts', fdata[idx := -1], fsize[idx := 0])
  {
    var fdata', fsize' := fdata[idx := -1], fsize[idx := 0];
    forall i | 0 <= i < MAX_F ensures fdata'[i] == -1 || OwnsBlock(header', starts', fdata'[i], fsize'[i]) {
      assert fdata[i] == -1 || OwnsBlock(header, starts, fdata[i], fsize[i]);
    }
    forall b | b in starts' && b in header' && !header'[b].free ensures b + HDR in fdata' {
      assert b in starts && b in Freed(header, fdata[idx]) && !Freed(header, fdata[idx])[b].free;
      assert b + HDR in fdata;
      var k :| 0 <= k < MAX_F && fdata[k] == b + HDR;
      assert fdata'[k] == b + HDR;
    }
  }

  /** The block just taken: it was free, so no slot owns it, and it is apart from
      the block being replaced. */
  lemma AllocFacts(header: map<nat, Header>, starts: set<nat>, bytes: nat, fdata: seq<int>, fsize: seq<nat>,
                   idx: nat, b: nat, need: nat)
    requires Tiling(header, starts, bytes) && Consistent(header, starts, fdata, fsize) && idx < MAX_F
    requires Fits(header, starts, need, b)
    ensures b + HDR + need <= bytes && b + HDR !in fdata
    ensures fdata[idx] != -1 ==>
      && OwnsBlock(TakenHeader(header, b, need), TakenStarts(header, starts, b, need), fdata[idx], fsize[idx])
      && (fdata[idx] + fsize[idx] <= b || b + HDR + need <= fdata[idx])
  {
    assert fdata[idx] == -1 || OwnsBlock(header, starts, fdata[idx], fsize[idx]);
    PayloadsApart(header, starts, bytes, b, if fdata[idx] == -1 then b else fdata[idx] - HDR);
    TakeSameLive(header, starts, bytes, b, need);
    forall i | 0 <= i < MAX_F ensures fdata[i] != b + HDR {
      assert fdata[i] == -1 || OwnsBlock(header, starts, fdata[i], fsize[i]);
    }
  }

  /** Writing inside the new block leaves every other file's bytes alone. */
  lemma OthersUntouched(header: map<nat, Header>, starts: set<nat>, bytes: nat, fdata: seq<int>, fsize: seq<nat>,
                        idx: nat, b: nat, size: nat, mem: seq<byte>, mem': seq<byte>)
    requires Tiling(header, starts, bytes) && Consistent(header, starts, fdata, fsize) && idx < MAX_F
    requires Fits(header, starts, Round4(size + 1), b) && |mem| == |mem'| == bytes
    requires forall k :: 0 <= k < bytes && !(b + HDR <= k <= b + HDR + size) ==> mem'[k] == mem[k]
    ensures forall i :: 0 <= i < MAX_F ==> Bytes(mem', fdata[i], fsize[i]) == Bytes(mem, fdata[i], fsize[i])
  {
  }

  /** Writing inside one file leaves the bytes of the others alone. */
  lemma StoreElsewhere(header: map<nat, Header>, starts: set<nat>, bytes: nat, fdata: seq<int>, fsize: seq<nat>,
                       idx: nat, mem: seq<byte>, mem': seq<byte>)
    requires Tiling(header, starts, bytes) && Consistent(header, starts, fdata, fsize) && idx < MAX_F && fdata[idx] != -1
    requires |mem| == |mem'| == bytes
    requires forall k :: 0 <= k < bytes && !(fdata[idx] <= k < fdata[idx] + fsize[idx]) ==> mem'[k] == mem[k]
    ensures forall i :: 0 <= i < MAX_F && i != idx ==> Bytes(mem', fdata[i], fsize[i]) == Bytes(mem, fdata[i], fsize[i])
  {
    forall i | 0 <= i < MAX_F && i != idx ensures Bytes(mem', fdata[i], fsize[i]) == Bytes(mem, fdata[i], fsize[i]) {
      if fdata[i] != -1 {
        if i < idx {
          FilesApart(header, starts, bytes, fdata, fsize, i, idx);
        } else {
          FilesApart(header, starts, bytes, fdata, fsize, idx, i);
        }
      }
    }
  }

  lemma GrowConsistent(header: map<nat, Header>, starts: set<nat>, bytes: nat, fdata: seq<int>, fsize: seq<nat>,
                       idx: nat, size: nat, b: nat, header1: map<nat, Header>, starts1: set<nat>,
                       header2: map<nat, Header>, starts2: set<nat>)
    requires Tiling(header, starts, bytes) && Consistent(header, starts, fdata, fsize) && idx < MAX_F
    requires Fits(header, starts, Round4(size + 1), b)
    requires header1 == TakenHeader(header, b, Round4(size + 1))
    requires starts1 == TakenStarts(header, starts, b, Round4(size + 1))
    requires SameLive(Freed(header1, fdata[idx]), starts1, header2, starts2)
    ensures Consistent(header2, starts2, fdata[idx := b + HDR], fsize[idx := size])
  {
    hide Tiling, TakenHeader, TakenStarts;
    AllocFacts(header, starts, bytes, fdata, fsize, idx, b, Round4(size + 1));
    TakeSameLive(header, starts, bytes, b, Round4(size + 1));
    var fdata', fsize' := fdata[idx := b + HDR], fsize[idx := size];
    GrowOwners(header, starts, fdata, fsize, idx, size, b, header1, starts1, header2, starts2, fdata', fsize');
    hide OwnsBlock;
    GrowCovers(header, starts, fdata, idx, b, header1, starts1, header2, starts2);
  }

  /** Every live block still belongs to a file. */
  lemma GrowCovers(header: map<nat, Header>, starts: set<nat>, fdata: seq<int>, idx: nat, b: nat,
                   header1: map<nat, Header>, starts1: set<nat>, header2: map<nat, Header>, starts2: set<nat>)
    requires |fdata| == MAX_F && idx < MAX_F
    requires forall a :: a in starts && a in header && !header[a].free ==> a + HDR in fdata
    requires forall a :: a in starts1 && a in header1 && !header1[a].free ==> a == b || (a in starts && a in header && !header[a].free)
    requires SameLive(Freed(header1, fdata[idx]), starts1, header2, starts2)
    ensures forall a :: a in starts2 && a in header2 && !header2[a].free ==> a + HDR in fdata[idx := b + HDR]
  {
    var fdata' := fdata[idx := b + HDR];
    forall a | a in starts2 && a in header2 && !header2[a].free ensures a + HDR in fdata' {
      if a == b {
        assert fdata'[idx] == a + HDR;
      } else {
        assert a in starts1 && a in header1 && !header1[a].free;
        assert a + HDR in fdata;
        var k :| 0 <= k < MAX_F && fdata[k] == a + HDR;
        assert fdata'[k] == a + HDR;
      }
    }
  }

  lemma GrowOwners(header: map<nat, Header>, starts: set<nat>, fdata: seq<int>, fsize: seq<nat>, idx: nat, size: nat, b: nat,
                   header1: map<nat, Header>, starts1: set<nat>, header2: map<nat, Header>, starts2: set<nat>,
                   fdata': seq<int>, fsize': seq<nat>)
    requires Consistent(header, starts, fdata, fsize) && idx < MAX_F && b + HDR !in fdata
    requires b in starts1 && b in header1 && !header1[b].free && size < header1[b].size
    requires forall a :: a in starts && a in header && !header[a].free ==> a in starts1 && a in header1 && header1[a] == header[a]
    requires SameLive(Freed(header1, fdata[idx]), starts1, header2, starts2)
    requires fdata' == fdata[idx := b + HDR] && fsize' == fsize[idx := size]
    ensures forall i :: 0 <= i < MAX_F ==> fdata'[i] == -1 || OwnsBlock(header2, starts2, fdata'[i], fsize'[i])
  {
  }

  // ------------------------------------------------- the files fit in the pool

  /** The total size of the first `n` slots. */
  function TotalSize(fdata: seq<int>, fsize: seq<nat>, n: nat): nat
    requires n <= |fdata| && n <= |fsize|
  {
    if n == 0 then 0 else TotalSize(fdata, fsize, n - 1) + if fdata[n - 1] == -1 then 0 else fsize[n - 1]
  }

  ghost function Range(lo: int, n: nat): (r: set<int>)
    ensures |r| == n && forall x :: x in r <==> lo <= x < lo + n
  {
    if n == 0 then {} else Range(lo, n - 1) + {lo + n - 1}
  }

  /** The pool bytes occupied by the first `n` files. */
  ghost function Occupied(fdata: seq<int>, fsize: seq<nat>, n: nat): set<int>
    requires n <= |fdata| && n <= |fsize|
  {
    if n == 0 then {} else Occupied(fdata, fsize, n - 1) + if fdata[n - 1] == -1 then {} else Range(fdata[n - 1], fsize[n - 1])
  }

  lemma {:induction false} OccupiedBy(fdata: seq<int>, fsize: seq<nat>, n: nat, x: int) returns (i: nat)
    requires n <= |fdata| && n <= |fsize| && x in Occupied(fdata, fsize, n)
    ensures i < n && fdata[i] != -1 && fdata[i] <= x < fdata[i] + fsize[i]
  {
    hide Range;
    if x in Occupied(fdata, fsize, n - 1) {
      i := OccupiedBy(fdata, fsize, n - 1, x);
    } else {
      i := n - 1;
    }
  }

  lemma FilesApart(header: map<nat, Header>, starts: set<nat>, bytes: nat, fdata: seq<int>, fsize: seq<nat>, i: nat, j: nat)
    requires Tiling(header, starts, bytes) && Consistent(header, starts, fdata, fsize)
    requires i < j < MAX_F && fdata[i] != -1 && fdata[j] != -1
    ensures fdata[i] + fsize[i] <= fdata[j] || fdata[j] + fsize[j] <= fdata[i]
  {
  }

  lemma {:induction false} OccupiedSize(header: map<nat, Header>, starts: set<nat>, bytes: nat, fdata: seq<int>, fsize: seq<nat>, n: nat)
    requires Tiling(header, starts, bytes) && Consistent(header, starts, fdata, fsize) && n <= MAX_F
    ensures |Occupied(fdata, fsize, n)| == TotalSize(fdata, fsize, n)
  {
    hide Tiling, Consistent, Range;
    assert |fdata| == |fsize| == MAX_F by { TableSizes(header, starts, fdata, fsize); }
    if n == 0 {
    } else {
      OccupiedSize(header, starts, bytes, fdata, fsize, n - 1);
      if fdata[n - 1] != -1 {
        OccupiedApart(header, starts, bytes, fdata, fsize, n - 1);
        DisjointSizes(Occupied(fdata, fsize, n - 1), Range(fdata[n - 1], fsize[n - 1]));
      }
    }
  }

  lemma TableSizes(header: map<nat, Header>, starts: set<nat>, fdata: seq<int>, fsize: seq<nat>)
    requires Consistent(header, starts, fdata, fsize)
    ensures |fdata| == |fsize| == MAX_F
  {
  }

  lemma DisjointSizes(a: set<int>, b: set<int>)
    requires a !! b
    ensures |a + b| == |a| + |b|
  {
  }

  lemma OccupiedApart(header: map<nat, Header>, starts: set<nat>, bytes: nat, fdata: seq<int>, fsize: seq<nat>, j: nat)
    requires Tiling(header, starts, bytes) && Consistent(header, starts, fdata, fsize)
    requires j < MAX_F && fdata[j] != -1
    ensures Occupied(fdata, fsize, j) !! Range(fdata[j], fsize[j])
  {
    assert |fdata| == |fsize| == MAX_F;
    hide Tiling, Consistent, Range, Occupied;
    forall x | x in Occupied(fdata, fsize, j) ensures x !in Range(fdata[j], fsize[j]) {
      var i := OccupiedBy(fdata, fsize, j, x);
      FilesApart(header, starts, bytes, fdata, fsize, i, j);
    }
  }

  /** All file bytes together never exceed the pool. */
  lemma FilesFitPool(header: map<nat, Header>, starts: set<nat>, bytes: nat, fdata: seq<int>, fsize: seq<nat>)
    requires Tiling(header, starts, bytes) && Consistent(header, starts, fdata, fsize)
    ensures TotalSize(fdata, fsize, MAX_F) <= bytes
  {
    hide Range;
    OccupiedSize(header, starts, bytes, fdata, fsize, MAX_F);
    forall x | x in Occupied(fdata, fsize, MAX_F) ensures x in Range(0, bytes) {
      var i := OccupiedBy(fdata, fsize, MAX_F, x);
      assert OwnsBlock(header, starts, fdata[i], fsize[i]);
      PayloadsApart(header, starts, bytes, fdata[i] - HDR, fdata[i] - HDR);
    }
    SubsetSize(Occupied(fdata, fsize, MAX_F), Range(0, bytes));
  }

  lemma {:induction false} SubsetSize(a: set<int>, b: set<int>)
    requires a <= b
    ensures |a| <= |b|
  {
    assert b == a + (b - a);
  }
}
