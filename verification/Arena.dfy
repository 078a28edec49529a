/** `malloc`, `free`, `calloc` and `realloc` over the block list of `Heap`: the heap
    behaves as a finite map from pointers to byte sequences. */
module Arena {
  import opened Words
  import opened Heap

  /** Live payloads by pointer. */
  ghost function ViewOf(h: map<nat, Block>, s: set<nat>, m: seq<byte>): map<int, seq<byte>> {
    map p: int | HDR <= p < |m| && InView(h, s, |m|, p) :: m[p..p - HDR + h[p - HDR].size]
  }

  ghost predicate InView(h: map<nat, Block>, s: set<nat>, n: nat, p: int) {
    p >= HDR && Live(h, s, p - HDR) && HDR <= h[p - HDR].size && End(h, p - HDR) <= n
  }

  /** No byte of a live payload differs. */
  ghost predicate Quiet(h: map<nat, Block>, s: set<nat>, m: seq<byte>, m': seq<byte>) {
    |m| == |m'| && forall a: nat, x: nat {:trigger Live(h, s, a), m'[x]} :: Live(h, s, a) && a + HDR <= x < End(h, a) && x < |m| ==> m'[x] == m[x]
  }

  /** At most the 20 header bytes at `w` differ. */
  ghost predicate Touched(m: seq<byte>, m': seq<byte>, w: nat) {
    |m| == |m'| && forall x :: 0 <= x < |m| && !(w <= x < w + HDR) ==> m'[x] == m[x]
  }

  /** Writing the header of a block, or a new header inside a free one, is quiet. */
  lemma TouchQuiet(h: map<nat, Block>, s: set<nat>, n: nat, m: seq<byte>, m': seq<byte>, b: nat, w: nat)
    requires Chain(h, s, n) && b in s && Touched(m, m', w)
    requires w == b || (h[b].free && b <= w && w + HDR <= End(h, b))
    ensures Quiet(h, s, m, m')
  {
  }

  lemma QuietTrans(h: map<nat, Block>, s: set<nat>, m: seq<byte>, m': seq<byte>, m'': seq<byte>)
    requires Quiet(h, s, m, m') && Quiet(h, s, m', m'')
    ensures Quiet(h, s, m, m'')
  {
  }

  /** Outside pointer `x + HDR`, the view depends on live blocks and their bytes only. */
  lemma ViewKept(h: map<nat, Block>, s: set<nat>, m: seq<byte>, h': map<nat, Block>, s': set<nat>, m': seq<byte>, x: int)
    requires SameLive(h, s, h', s', x) && Quiet(h, s, m, m')
    ensures ViewOf(h', s', m') - {x + HDR} == ViewOf(h, s, m) - {x + HDR}
  {
    hide ViewOf, SameLive, Quiet;
    var v, v' := ViewOf(h, s, m), ViewOf(h', s', m');
    forall p: int | p != x + HDR ensures (p in v <==> p in v') && (p in v ==> v'[p] == v[p]) {
      ViewAt(h, s, m, h', s', m', x, p);
    }
  }

  lemma ViewAt(h: map<nat, Block>, s: set<nat>, m: seq<byte>, h': map<nat, Block>, s': set<nat>, m': seq<byte>, x: int, p: int)
    requires SameLive(h, s, h', s', x) && Quiet(h, s, m, m') && p != x + HDR
    ensures var v, v' := ViewOf(h, s, m), ViewOf(h', s', m'); (p in v <==> p in v') && (p in v ==> v'[p] == v[p])
  {
  }

  ghost predicate Aligned(s: set<nat>) {
    forall b :: b in s ==> b % 4 == 0
  }

  /** The bytes of a C header; the exact values of the links do not matter here. */
  function Encode(b: Block): (r: seq<byte>)
    ensures |r| == HDR
  {
    Le32(0xB10CA0F) + Le32(Wrap32(b.size)) + Le32(Wrap32(b.next)) + Le32(Wrap32(b.prev)) + Le32(if b.free then 1 else 0)
  }

  /** The header bytes in the arena are those of the blocks in the list. */
  ghost predicate Tied(h: map<nat, Block>, s: set<nat>, m: seq<byte>) {
    forall b :: b in s ==> TiedAt(h, m, b)
  }

  ghost predicate TiedAt(h: map<nat, Block>, m: seq<byte>, b: nat) {
    b in h && b + HDR <= |m| && m[b..b + HDR] == Encode(h[b])
  }

  /** Headers do not overlap. */
  ghost predicate Spaced(s: set<nat>, w: nat) {
    forall a :: a in s && a != w ==> a + HDR <= w || w + HDR <= a
  }

  /** A header write leaves the other headers as they are. */
  lemma PutTied(h: map<nat, Block>, s: set<nat>, m: seq<byte>, m': seq<byte>, w: nat, block: Block)
    requires Tied(h, s - {w}, m) && Spaced(s, w) && Touched(m, m', w) && w + HDR <= |m| && m'[w..w + HDR] == Encode(block)
    ensures Tied(h[w := block], s, m')
  {
    hide Encode;
    forall b | b in s ensures TiedAt(h[w := block], m', b) {
      if b != w {
        assert TiedAt(h, m, b);
        assert m'[b..b + HDR] == m[b..b + HDR];
      }
    }
  }

  lemma TiedLess(h: map<nat, Block>, s: set<nat>, s': set<nat>, m: seq<byte>)
    requires Tied(h, s, m) && s' <= s
    ensures Tied(h, s', m)
  {
    hide TiedAt;
  }

  lemma ChainSpaced(h: map<nat, Block>, s: set<nat>, n: nat, w: nat)
    requires Chain(h, s, n) && w in s
    ensures Spaced(s, w)
  {
    forall a | a in s && a != w ensures a + HDR <= w || w + HDR <= a {
      ChainFacts(h, s, n, a);
      ChainFacts(h, s, n, w);
    }
  }

  /** A header that starts inside a block, with room before and behind. */
  lemma InnerSpaced(h: map<nat, Block>, s: set<nat>, n: nat, b: nat, w: nat)
    requires Chain(h, s, n) && b in s && b + HDR <= w && w + HDR <= End(h, b)
    ensures Spaced(s, w) && w !in s
  {
    ChainFacts(h, s, n, b);
    hide Chain, Node;
  }

  /** `b->magic == MALLOC_MAGIC`, read from memory. */
  predicate HasMagic(bytes: seq<byte>)
    requires |bytes| == HDR
  {
    bytes[..4] == Le32(0xB10CA0F)
  }

  /** `b->free_`, read from memory. */
  predicate SaysFree(bytes: seq<byte>)
    requires |bytes| == HDR
  {
    bytes[16..] != Le32(0)
  }

  lemma Decoded(b: Block)
    ensures HasMagic(Encode(b)) && (SaysFree(Encode(b)) <==> b.free)
  {
    var flag := Le32(if b.free then 1 else 0);
    assert Encode(b)[..4] == Le32(0xB10CA0F) && Encode(b)[16..] == flag;
    assert flag[0] == if b.free then 1 else 0;
  }

  class Allocator {
    const mem: array<byte>
    var ready: int
    var head: int
    var header: map<nat, Block>
    ghost var starts: set<nat>

    ghost predicate Valid()
      reads this, mem
    {
      && mem.Length <= ARENA_MAX && -1 <= ready <= 1 && (ready == -1 ==> mem.Length < 4096)
      && (ready != 1 ==> head == -1 && starts == {})
      && (ready == 1 ==> head == 0 && Chain(header, starts, mem.Length) && NoPair(header, starts) && Aligned(starts))
      && Tied(header, starts, mem[..])
    }

    ghost function View(): map<int, seq<byte>>
      reads this, mem
    {
      ViewOf(header, starts, mem[..])
    }

    /** The bytes behind a live pointer, nothing behind any other. */
    ghost function Payload(p: int): seq<byte>
      reads this, mem
    {
      if p in View() then View()[p] else []
    }

    /** No free block holds the rounded request; before the first call the arena is one. */
    ghost predicate Refuses(n: u32)
      reads this
    {
      if ready == 0 then mem.Length < 4096 || Round(n) > mem.Length
      else forall b :: b in starts ==> !Fits(header, starts, Round(n), b)
    }

    /** The block behind pointer `p` is free and the two together hold the rounded request. */
    ghost predicate CanGrow(p: int, n: u32)
      reads this
    {
      p >= HDR && p - HDR in header && var b := header[p - HDR];
      b.next >= 0 && b.next in header && header[b.next].free && b.size + header[b.next].size >= Round(n)
    }

    /** `malloc_set_arena`. */
    constructor (bytes: nat)
      requires bytes <= ARENA_MAX
      ensures Valid() && View() == map[] && mem.Length == bytes / 16 * 16 && fresh(mem)
    {
      mem := new byte[bytes / 16 * 16];
      ready, head, header, starts := 0, -1, map[], {};
    }

    method Put(w: nat, block: Block)
      requires w + HDR <= mem.Length
      modifies this`header, mem
      ensures header == old(header)[w := block] && Touched(old(mem[..]), mem[..], w)
      ensures mem[w..w + HDR] == Encode(block)
    {
      hide Encode;
      var image := Encode(block);
      for k := 0 to HDR
        invariant header == old(header) && Touched(old(mem[..]), mem[..], w) && mem[w..w + k] == image[..k]
      {
        mem[w + k] := image[k];
        assert mem[w..w + k + 1] == mem[w..w + k] + [image[k]];
      }
      header := header[w := block];
    }

    /** A header write during a call that started with the heap `(h, s, m)`: at a block, or
        inside a free one. No live payload of that heap changes, and the headers at `all`
        are those in memory. */
    method Set(w: nat, block: Block, ghost b: nat, ghost h: map<nat, Block>, ghost s: set<nat>, ghost m: seq<byte>, ghost all: set<nat>)
      requires Chain(h, s, mem.Length) && Quiet(h, s, m, mem[..]) && w + HDR <= mem.Length
      requires b in s && (w == b || (b in h && h[b].free && b <= w && w + HDR <= End(h, b)))
      requires Tied(header, all - {w}, mem[..]) && Spaced(all, w)
      modifies this`header, mem
      ensures header == old(header)[w := block] && Quiet(h, s, m, mem[..]) && Tied(header, all, mem[..])
    {
      hide Chain, Quiet, Touched, Tied, Spaced, Encode;
      NodeFacts(h, s, mem.Length, b);
      ghost var h0, m0 := header, mem[..];
      Put(w, block);
      TouchQuiet(h, s, mem.Length, m0, mem[..], b, w);
      QuietTrans(h, s, m, m0, mem[..]);
      PutTied(h0, all, m0, mem[..], w, block);
    }

    /** `malloc_init`. */
    method Init()
      requires Valid() && ready == 0
      modifies this, mem
      ensures Valid() && ready != 0 && View() == old(View())
      ensures ready == 1 <==> mem.Length >= 4096
      ensures starts == if ready == 1 then {0} else {}
      ensures ready == 1 ==> 0 in header && header[0] == Block(mem.Length, -1, -1, true)
    {
      hide Chain, Node, NoPair, Touched, ViewOf;
      NothingLive(header, starts, mem[..]);
      if mem.Length < 4096 {
        ready := -1;
      } else {
        head := 0;
        Put(0, Block(mem.Length, -1, -1, true));
        starts := {0};
        ready := 1;
        OneBlock(header, mem.Length);
        NothingLive(header, starts, mem[..]);
      }
    }

    /** The first-fit walk along the links. */
    method Search(need: nat) returns (b: int)
      requires Valid()
      ensures b == -1 || b >= 0
      ensures b == -1 <==> forall a :: a in starts ==> !Fits(header, starts, need, a)
      ensures b != -1 ==> Fits(header, starts, need, b) && forall a :: a in starts && a < b ==> !Fits(header, starts, need, a)
    {
      hide Chain, NoPair, Aligned, Tied;
      b := head;
      if ready == 1 { ChainFacts(header, starts, mem.Length, 0); }
      while b != -1
        invariant b == -1 || (ready == 1 && b >= 0 && b in starts)
        invariant forall a :: a in starts && (b == -1 || a < b) ==> !Fits(header, starts, need, a)
        decreases if b == -1 then 0 else 1 + mem.Length - b
      {
        ChainFacts(header, starts, mem.Length, b);
        if header[b].free && header[b].size >= need { return; }
        NothingPast(header, starts, mem.Length, b);
        b := header[b].next;
      }
    }

    /** Splitting and marking the found block. */
    method Occupy(b: nat, need: nat)
      requires Valid() && ready == 1 && MIN_BLOCK <= need && need % 4 == 0 && Fits(header, starts, need, b)
      modifies this`header, this`starts, mem
      ensures Valid()
      ensures header == TakenHeader(old(header), b, need) && starts == TakenStarts(old(header), old(starts), b, need)
      ensures Quiet(old(header), old(starts), old(mem[..]), mem[..])
    {
      hide Chain, Node, NoPair, SameLive, Split, Quiet, Touched, Tied, Spaced, Encode;
      TakeKeeps(header, starts, mem.Length, b, need);
      NodeFacts(header, starts, mem.Length, b);
      SplitStart(header, b, need);
      QuietSelf(header, starts, mem[..]);
      if header[b].size >= need + MIN_BLOCK {
        SplitOff(b, need);
        starts := starts + {b + need};
      }
      OccupySpaced(old(header), old(starts), mem.Length, b, need);
      TiedLess(header, starts, starts - {b}, mem[..]);
      Set(b, header[b].(free := false), b, old(header), old(starts), old(mem[..]), starts);
    }

    method SplitOff(b: nat, need: nat)
      requires Chain(header, starts, mem.Length) && MIN_BLOCK <= need && Fits(header, starts, need + MIN_BLOCK, b)
      requires Tied(header, starts, mem[..])
      modifies this`header, mem
      ensures header == Split(old(header), b, need) && Tied(header, starts + {b + need}, mem[..])
      ensures Quiet(old(header), old(starts), old(mem[..]), mem[..])
    {
      hide Chain, Quiet, Touched, Tied, Spaced, Encode;
      ghost var h, m, all := header, mem[..], starts + {b + need};
      ChainFacts(h, starts, mem.Length, b);
      SplitSpaced(h, starts, mem.Length, b, need);
      QuietSelf(h, starts, m);
      TiedLess(h, starts, all - {b + need}, m);
      var next := header[b].next;
      Set(b + need, Block(header[b].size - need, next, b, true), b, h, starts, m, all);
      if next != -1 {
        TiedLess(header, all, all - {next as nat}, mem[..]);
        Set(next, header[next].(prev := b + need), next, h, starts, m, all);
      }
      TiedLess(header, all, all - {b}, mem[..]);
      Set(b, header[b].(next := b + need, size := need), b, h, starts, m, all);
    }

    /** `malloc`. A block is found exactly when some free block holds the rounded
        request; it is the first such block, and nothing live is disturbed. */
    method Malloc(n: u32) returns (p: int)
      requires Valid()
      modifies this, mem
      ensures Valid()
      ensures p == -1 ==> View() == old(View())
      ensures p == -1 <==> old(Refuses(n))
      ensures p != -1 ==> p >= HDR && p !in old(View()) && p in View() && View() - {p} == old(View())
      ensures p != -1 ==> Round(n) - 20 <= |View()[p]| < Round(n) - 20 + 36 && p % 4 == 0
      ensures p != -1 && old(ready) != 0 ==>
        forall b :: b in old(starts) && b < p - HDR ==> !old(Fits(header, starts, Round(n), b))
    {
      hide Valid, View, Round;
      if ready == 0 {
        Init();
        assert ready == 1 ==> (Fits(header, starts, Round(n), 0) <==> Round(n) <= mem.Length);
      }
      p := Allocate(n);
    }

    method Allocate(n: u32) returns (p: int)
      requires Valid() && ready != 0
      modifies this`header, this`starts, mem
      ensures Valid()
      ensures p == -1 ==> View() == old(View())
      ensures p == -1 <==> forall b :: b in old(starts) ==> !old(Fits(header, starts, Round(n), b))
      ensures p != -1 ==> p >= HDR && p !in old(View()) && p in View() && View() - {p} == old(View())
      ensures p != -1 ==> Round(n) - 20 <= |View()[p]| < Round(n) - 20 + 36 && p % 4 == 0
      ensures p != -1 ==> forall b :: b in old(starts) && b < p - HDR ==> !old(Fits(header, starts, Round(n), b))
    {
      hide Chain, NoPair, Round, Quiet, TakenHeader, TakenStarts, ViewOf, Tied;
      RoundAligned(n);
      var b := Search(Round(n));
      if b == -1 { return -1; }
      Occupy(b, Round(n));
      TakenView(old(header), old(starts), mem.Length, old(mem[..]), mem[..], b, Round(n));
      p := b + HDR;
    }

    /** `free`. Magic and flag are read from memory, so any pointer may be passed whose
        header bytes do not happen to look live: null, live pointers, and freed or foreign
        ones. Exactly a live one leaves the heap. */
    method Free(p: int)
      requires Valid()
      requires p == -1 || (ready == 1 && HDR <= p <= mem.Length)
      requires p != -1 && p - HDR !in starts ==> !HasMagic(mem[p - HDR..p]) || SaysFree(mem[p - HDR..p])
      modifies this`header, this`starts, mem
      ensures Valid() && View() == old(View()) - {p}
    {
      hide Chain, NoPair, ViewOf, Quiet, JoinNext, JoinedNext, JoinPrev, JoinedPrev, HasMagic, SaysFree, Tied, Encode;
      NullPointer(header, starts, mem[..]);
      if p == -1 { return; }
      var b := p - HDR;
      if b in starts { TiedStart(header, starts, mem[..], b); }
      if !HasMagic(mem[b..p]) || SaysFree(mem[b..p]) {
        NotLive(header, starts, mem[..], b);
        return;
      }
      Release(b);
      ReleasedView(old(header), old(starts), old(mem[..]), header, starts, mem[..], b);
    }

    method Release(b: nat)
      requires Valid() && ready == 1 && b in starts
      modifies this`header, this`starts, mem
      ensures Valid()
      ensures SameLive(old(header), old(starts), header, starts, b) && !Live(header, starts, b)
      ensures Quiet(old(header), old(starts), old(mem[..]), mem[..])
    {
      hide Chain, NoPair, Quiet, Touched, Absorb, SameLive, Live, Node, Tied, Spaced, Encode;
      ghost var h, s, m := header, starts, mem[..];
      ChainSpaced(h, s, mem.Length, b);
      TiedLess(h, s, s - {b}, m);
      ReleaseKeeps(h, s, mem.Length, b);
      NodeFacts(h, s, mem.Length, b);
      MarkKeeps(h, s, mem.Length, b, true);
      QuietSelf(h, s, m);
      Set(b, header[b].(free := true), b, h, s, m, s);
      NodeFacts(header, s, mem.Length, b);
      if header[b].next != -1 && header[header[b].next].free {
        Swallow(b, h, s, m);
      }
      NodeFacts(header, starts, mem.Length, b);
      var prev := header[b].prev;
      if prev != -1 && header[prev].free {
        NodeFacts(header, starts, mem.Length, prev);
        Swallow(prev, h, s, m);
      }
    }

    /** A block swallows its successor; measured from the heap `(h, s, m)` at the start
        of the call, no live payload changes. */
    method Swallow(b: nat, ghost h: map<nat, Block>, ghost s: set<nat>, ghost m: seq<byte>)
      requires Chain(header, starts, mem.Length) && b in starts && starts <= s && b in header && header[b].next >= 0 && header[b].next in header
      requires Chain(h, s, mem.Length) && Quiet(h, s, m, mem[..]) && Tied(header, starts, mem[..])
      modifies this`header, this`starts, mem
      ensures header == Absorb(old(header), b) && starts == old(starts) - {End(old(header), b)}
      ensures Tied(header, starts, mem[..])
      ensures Chain(header, starts, mem.Length)
      ensures Quiet(h, s, m, mem[..])
    {
      hide Chain, Quiet, Touched, Node, Tied, Spaced, Encode;
      ghost var h0, s0 := header, starts;
      ChainSpaced(h0, s0, mem.Length, b);
      TiedLess(h0, s0, s0 - {b}, mem[..]);
      AbsorbKeeps(header, starts, mem.Length, b);
      ghost var c := End(header, b);
      NodeFacts(header, starts, mem.Length, b);
      NodeFacts(header, starts, mem.Length, c);
      var next := header[header[b].next].next;
      Set(b, header[b].(size := header[b].size + header[header[b].next].size, next := next), b, h, s, m, s0);
      if next != -1 {
        ChainSpaced(h0, s0, mem.Length, next);
        TiedLess(header, s0, s0 - {next as nat}, mem[..]);
        Set(next, header[next].(prev := b), next, h, s, m, s0);
      }
      TiedLess(header, s0, s0 - {c}, mem[..]);
      starts := starts - {c};
    }

    /** A store through a live pointer (also `memcpy` and `memset` into a block):
        payloads are disjoint, so only that pointer's bytes change. */
    method Write(p: int, at: nat, data: seq<byte>)
      requires Valid() && p in View() && at + |data| <= |View()[p]|
      modifies mem
      ensures Valid() && View() == old(View())[p := Splice(old(View()[p]), at, data)]
    {
      hide Chain, NoPair, ViewOf, Tied;
      ViewBounds(header, starts, mem[..], p);
      CopyIn(p + at, data);
      WriteTied(header, starts, old(mem[..]), mem[..], p - HDR);
      WriteView(header, starts, old(mem[..]), mem[..], p, at, data);
    }

    method CopyIn(at: nat, data: seq<byte>)
      requires at + |data| <= mem.Length
      modifies mem
      ensures forall x :: 0 <= x < mem.Length && !(at <= x < at + |data|) ==> mem[x] == old(mem[x])
      ensures forall x :: 0 <= x < |data| ==> mem[at + x] == data[x]
    {
      for k := 0 to |data|
        invariant forall x :: 0 <= x < mem.Length && !(at <= x < at + k) ==> mem[x] == old(mem[x])
        invariant forall x :: 0 <= x < k ==> mem[at + x] == data[x]
      {
        mem[at + k] := data[k];
      }
    }

    /** `calloc`: null when the product overflows 32 bits. */
    method Calloc(nmemb: u32, size: u32) returns (p: int)
      requires Valid()
      requires nmemb * size <= MAX_REQUEST || nmemb * size >= MOD32
      modifies this, mem
      ensures Valid()
      ensures p == -1 <==> nmemb * size >= MOD32 || old(Refuses(nmemb * size))
      ensures p == -1 ==> View() == old(View())
      ensures p != -1 ==> p !in old(View()) && p in View() && View() - {p} == old(View())
      ensures p != -1 ==> nmemb * size <= |View()[p]| && forall i :: 0 <= i < nmemb * size ==> View()[p][i] == 0
    {
      hide Valid, View, Refuses;
      ProductFits(nmemb, size);
      if nmemb != 0 && size > 0xFFFF_FFFF / nmemb { return -1; }
      var n := nmemb * size;
      p := Malloc(n);
      if p == -1 { return; }
      RoundCovers(n);
      hide Round;
      ghost var v := View();
      Write(p, 0, seq(n, _ => 0 as byte));
      assert View() - {p} == v - {p};
    }

    /** `realloc`, moving or in place: the old contents are a prefix of the new block,
        and no other block changes. */
    method Realloc(p: int, n: u32) returns (q: int)
      requires Valid() && (p == -1 || p in View()) && n <= MAX_REQUEST
      modifies this, mem
      ensures Valid()
      ensures p != -1 && n == 0 ==> q == -1 && View() == old(View()) - {p}
      ensures (p == -1 || n > 0) && q == -1 ==> View() == old(View())
      ensures q == -1 <==>
        if p == -1 then old(Refuses(n))
        else n == 0 || (|old(Payload(p))| < n && !old(CanGrow(p, n)) && old(Refuses(n)))
      ensures p != -1 && 0 < n <= |old(Payload(p))| ==> q == p && View() == old(View())
      ensures p != -1 && n > |old(Payload(p))| && old(CanGrow(p, n)) ==> q == p
      ensures q != -1 && q != p ==> |Payload(q)| < Round(n) - 20 + 36
      ensures q != -1 ==> q in View() && |Payload(q)| >= n && View() - {q} == old(View()) - {p}
      ensures q != -1 && p != -1 ==> old(Payload(p)) <= Payload(q)
      ensures q != -1 && q != p ==> q !in old(View())
    {
      hide Valid, View, Round, Fits, Refuses;
      RoundCovers(n);
      NoNull(this);
      if p == -1 {
        q := Malloc(n);
        return;
      }
      LivePointer(this, p);
      if n == 0 {
        Free(p);
        return -1;
      }
      var have := header[p - HDR].size - HDR;
      if have >= n { return p; }
      var next := header[p - HDR].next;
      if next != -1 && header[next].free && header[p - HDR].size + header[next].size >= Round(n) {
        GrowInPlace(p);
        return p;
      }
      q := Move(p, n, have);
    }

    method GrowInPlace(p: int)
      requires Valid() && p in View() && ready == 1 && p >= HDR && p - HDR in starts && p - HDR in header
      requires header[p - HDR].next >= 0 && header[p - HDR].next in header && header[header[p - HDR].next].free
      modifies this`header, this`starts, mem
      ensures Valid() && p in View() && View() - {p} == old(View()) - {p}
      ensures |View()[p]| == |old(View()[p])| + old(header[header[p - HDR].next].size)
      ensures old(View()[p]) <= View()[p]
    {
      hide Chain, NoPair, Quiet, ViewOf, Tied;
      ghost var b := p - HDR;
      ViewBounds(header, starts, mem[..], p);
      QuietSelf(header, starts, mem[..]);
      GrownList(header, starts, mem.Length, b);
      Swallow(p - HDR, header, starts, mem[..]);
      NodeFacts(header, starts, mem.Length, b);
      ViewKept(old(header), old(starts), old(mem[..]), header, starts, mem[..], b);
      GrownView(old(header), old(starts), old(mem[..]), header, starts, mem[..], b);
    }

    method Move(p: int, n: u32, have: nat) returns (q: int)
      requires Valid() && p in View() && ready == 1 && p >= HDR && p - HDR in starts && p - HDR in header
      requires have == |Payload(p)| && have < n <= MAX_REQUEST
      modifies this, mem
      ensures Valid()
      ensures q == -1 ==> View() == old(View())
      ensures q == -1 <==> old(Refuses(n))
      ensures q != -1 ==> |Payload(q)| < Round(n) - 20 + 36
      ensures q != -1 ==> q in View() && |Payload(q)| >= n && View() - {q} == old(View()) - {p}
      ensures q != -1 ==> old(Payload(p)) <= Payload(q) && q !in old(View())
    {
      hide Valid, View, Round, Fits, Refuses;
      RoundCovers(n);
      q := Malloc(n);
      if q == -1 { return; }
      LivePointer(this, p);
      Write(q, 0, mem[p..p + have]);
      LivePointer(this, p);
      Free(p);
    }
  }

  /** Payload bytes are not header bytes. */
  lemma WriteTied(h: map<nat, Block>, s: set<nat>, m: seq<byte>, m': seq<byte>, b: nat)
    requires Chain(h, s, |m|) && b in s && Tied(h, s, m) && |m'| == |m|
    requires forall x :: 0 <= x < |m| && !(b + HDR <= x < End(h, b)) ==> m'[x] == m[x]
    ensures Tied(h, s, m')
  {
    ChainFacts(h, s, |m|, b);
    hide Chain, Node, Encode;
    forall a | a in s ensures TiedAt(h, m', a) {
      assert TiedAt(h, m, a);
      assert m'[a..a + HDR] == m[a..a + HDR];
    }
  }

  lemma TiedStart(h: map<nat, Block>, s: set<nat>, m: seq<byte>, b: nat)
    requires Tied(h, s, m) && b in s
    ensures b in h && b + HDR <= |m| && HasMagic(m[b..b + HDR]) && (SaysFree(m[b..b + HDR]) <==> h[b].free)
  {
    assert TiedAt(h, m, b);
    Decoded(h[b]);
  }

  lemma SplitSpaced(h: map<nat, Block>, s: set<nat>, n: nat, b: nat, need: nat)
    requires Chain(h, s, n) && b in s && MIN_BLOCK <= need && need + MIN_BLOCK <= h[b].size
    ensures var s' := s + {b + need};
      Spaced(s', b + need) && Spaced(s', b) && (h[b].next >= 0 ==> Spaced(s', h[b].next)) && b + need !in s
  {
    SplitKeeps(h, s, n, b, need);
    ChainFacts(h, s, n, b);
    InnerSpaced(h, s, n, b, b + need);
    ChainSpaced(Split(h, b, need), s + {b + need}, n, b);
    if h[b].next >= 0 { ChainSpaced(Split(h, b, need), s + {b + need}, n, h[b].next); }
    hide Chain, Node, Split;
  }

  lemma OccupySpaced(h: map<nat, Block>, s: set<nat>, n: nat, b: nat, need: nat)
    requires Chain(h, s, n) && b in s && MIN_BLOCK <= need
    ensures Spaced(TakenStarts(h, s, b, need), b)
  {
    ChainSpaced(h, s, n, b);
    if h[b].size >= need + MIN_BLOCK { SplitSpaced(h, s, n, b, need); }
  }

  lemma QuietSelf(h: map<nat, Block>, s: set<nat>, m: seq<byte>)
    ensures Quiet(h, s, m, m)
  {
  }

  lemma NothingPast(h: map<nat, Block>, s: set<nat>, n: nat, b: nat)
    requires Chain(h, s, n) && b in s
    ensures forall a :: a in s && a > b ==> h[b].next >= 0 && a >= h[b].next
  {
    ChainFacts(h, s, n, b);
    forall a | a in s && a > b ensures h[b].next >= 0 && a >= h[b].next {
      ChainFacts(h, s, n, a);
    }
  }

  /** Taking a block adds one pointer to the view. */
  lemma TakenView(h: map<nat, Block>, s: set<nat>, n: nat, m: seq<byte>, m': seq<byte>, b: nat, need: nat)
    requires Chain(h, s, n) && NoPair(h, s) && Fits(h, s, need, b) && need >= MIN_BLOCK && |m| == n && Quiet(h, s, m, m')
    ensures var v, v' := ViewOf(h, s, m), ViewOf(TakenHeader(h, b, need), TakenStarts(h, s, b, need), m');
      b + HDR !in v && b + HDR in v' && v' - {b + HDR} == v && need - HDR <= |v'[b + HDR]| < need - HDR + 36
  {
    TakenTight(h, s, b, need);
    TakeKeeps(h, s, n, b, need);
    var h', s' := TakenHeader(h, b, need), TakenStarts(h, s, b, need);
    ViewKept(h, s, m, h', s', m', b);
    ChainFacts(h, s, n, b);
    assert h'[b].size >= need && !h'[b].free && End(h', b) <= n;
    hide Chain, NoPair, TakenHeader, TakenStarts, SameLive, Quiet;
    NotLive(h, s, m, b);
  }

  lemma NotLive(h: map<nat, Block>, s: set<nat>, m: seq<byte>, b: nat)
    requires !Live(h, s, b)
    ensures b + HDR !in ViewOf(h, s, m) && ViewOf(h, s, m) - {b + HDR} == ViewOf(h, s, m)
  {
  }

  lemma NodeFacts(h: map<nat, Block>, s: set<nat>, n: nat, b: nat)
    requires Chain(h, s, n) && b in s
    ensures b in h && b + HDR <= n && End(h, b) <= n
    ensures h[b].next == -1 || (h[b].next == End(h, b) && h[b].next >= 0 && h[b].next in s && h[b].next in h && h[b].next + HDR <= n)
    ensures h[b].prev == -1 || (h[b].prev >= 0 && h[b].prev in s && h[b].prev in h && h[h[b].prev].next == b)
  {
    ChainFacts(h, s, n, b);
    if h[b].prev >= 0 { ChainFacts(h, s, n, h[b].prev); }
  }

  lemma NullPointer(h: map<nat, Block>, s: set<nat>, m: seq<byte>)
    ensures ViewOf(h, s, m) - {-1} == ViewOf(h, s, m)
  {
  }

  lemma ReleasedView(h: map<nat, Block>, s: set<nat>, m: seq<byte>, h': map<nat, Block>, s': set<nat>, m': seq<byte>, b: nat)
    requires SameLive(h, s, h', s', b) && !Live(h', s', b) && Quiet(h, s, m, m')
    ensures ViewOf(h', s', m') == ViewOf(h, s, m) - {b + HDR}
  {
    ViewKept(h, s, m, h', s', m', b);
    NotLive(h', s', m', b);
  }

  lemma ViewBounds(h: map<nat, Block>, s: set<nat>, m: seq<byte>, p: int)
    requires p in ViewOf(h, s, m)
    ensures p < |m| && InView(h, s, |m|, p) && ViewOf(h, s, m)[p] == m[p..End(h, p - HDR)]
  {
  }

  lemma WriteView(h: map<nat, Block>, s: set<nat>, m: seq<byte>, m': seq<byte>, p: int, at: nat, data: seq<byte>)
    requires Chain(h, s, |m|) && p in ViewOf(h, s, m) && at + |data| <= |ViewOf(h, s, m)[p]|
    requires |m'| == |m| && p >= 0
    requires forall x :: 0 <= x < |m| && !(p + at <= x < p + at + |data|) ==> m'[x] == m[x]
    requires forall x :: 0 <= x < |data| && p + at + x < |m'| ==> m'[p + at + x] == data[x]
    ensures ViewOf(h, s, m') == ViewOf(h, s, m)[p := Splice(ViewOf(h, s, m)[p], at, data)]
  {
    ViewBounds(h, s, m, p);
    var v, v' := ViewOf(h, s, m), ViewOf(h, s, m');
    assert p in v';
    ViewBounds(h, s, m', p);
    forall q ensures (q in v <==> q in v') && (q in v && q != p ==> v'[q] == v[q]) {
      assert q in v <==> HDR <= q < |m| && InView(h, s, |m|, q);
      assert q in v' <==> HDR <= q < |m| && InView(h, s, |m|, q);
      if q in v && q != p {
        hide ViewOf, InView;
        OtherPayload(h, s, m, m', p, q);
      }
    }
    hide ViewOf, Chain;
    SpliceSlice(m, m', p, End(h, p - HDR), at, data);
  }

  lemma OtherPayload(h: map<nat, Block>, s: set<nat>, m: seq<byte>, m': seq<byte>, p: int, q: int)
    requires Chain(h, s, |m|) && p in ViewOf(h, s, m) && q in ViewOf(h, s, m) && q != p && |m'| == |m| && q in ViewOf(h, s, m')
    requires forall x :: 0 <= x < |m| && !(p <= x < p + |ViewOf(h, s, m)[p]|) ==> m'[x] == m[x]
    ensures ViewOf(h, s, m')[q] == ViewOf(h, s, m)[q]
  {
    ViewBounds(h, s, m, p);
    ViewBounds(h, s, m, q);
    ViewBounds(h, s, m', q);
    hide ViewOf, Chain, Node;
    ChainFacts(h, s, |m|, p - HDR);
  }

  lemma SpliceSlice(m: seq<byte>, m': seq<byte>, p: nat, end: nat, at: nat, data: seq<byte>)
    requires p + at + |data| <= end <= |m| == |m'|
    requires forall x :: 0 <= x < |m| && !(p + at <= x < p + at + |data|) ==> m'[x] == m[x]
    requires forall x :: 0 <= x < |data| && p + at + x < |m'| ==> m'[p + at + x] == data[x]
    ensures m'[p..end] == Splice(m[p..end], at, data)
  {
  }

  lemma ProductFits(a: u32, b: u32)
    ensures a != 0 ==> (b > 0xFFFF_FFFF / a <==> a * b >= MOD32)
    ensures a * b >= 0
  {
    if a != 0 {
      var k := 0xFFFF_FFFF / a;
      if b > k {
        assert a * b >= a * (k + 1);
      } else {
        assert a * b <= a * k;
      }
    }
  }

  lemma NoNull(heap: Allocator)
    ensures -1 !in heap.View()
  {
  }

  lemma LivePointer(heap: Allocator, p: int)
    requires heap.Valid() && p in heap.View()
    ensures heap.ready == 1 && p >= HDR && p - HDR in heap.starts && p - HDR in heap.header
    ensures p + |heap.View()[p]| <= heap.mem.Length && heap.View()[p] == heap.mem[p..p + |heap.View()[p]|]
    ensures |heap.View()[p]| == heap.header[p - HDR].size - HDR
    ensures var next := heap.header[p - HDR].next; next == -1 || (next >= 0 && next in heap.header)
  {
    hide Chain, NoPair, ViewOf, Tied;
    ViewBounds(heap.header, heap.starts, heap.mem[..], p);
    NodeFacts(heap.header, heap.starts, heap.mem.Length, p - HDR);
  }

  lemma GrownList(h: map<nat, Block>, s: set<nat>, n: nat, b: nat)
    requires Chain(h, s, n) && NoPair(h, s) && b in s && b in h && h[b].next >= 0 && h[b].next in h && h[h[b].next].free
    ensures var h', s' := Absorb(h, b), s - {End(h, b)};
      && NoPair(h', s') && SameLive(h, s, h', s', b) && b in h' && b in s'
      && h'[b].free == h[b].free && h'[b].size == h[b].size + h[h[b].next].size
  {
    hide Chain, Absorb;
    assert PairsAt(h, s, b);
    JoinNextKeeps(h, s, n, b);
    ChainFacts(h, s, n, b);
    ChainFacts(h, s, n, End(h, b));
    AbsorbFields(h, b);
  }

  lemma GrownView(h: map<nat, Block>, s: set<nat>, m: seq<byte>, h': map<nat, Block>, s': set<nat>, m': seq<byte>, b: nat)
    requires Live(h, s, b) && Live(h', s', b) && HDR <= h[b].size <= h'[b].size && End(h', b) <= |m| == |m'| && Quiet(h, s, m, m')
    requires b + HDR < |m|
    ensures var p, v, v' := b + HDR, ViewOf(h, s, m), ViewOf(h', s', m');
      p in v && p in v' && |v'[p]| == h'[b].size - HDR && v[p] <= v'[p]
  {
  }

  lemma NothingLive(h: map<nat, Block>, s: set<nat>, m: seq<byte>)
    requires forall b :: b in s && b in h ==> h[b].free
    ensures ViewOf(h, s, m) == map[]
  {
  }

  lemma OneBlock(h: map<nat, Block>, n: nat)
    requires 0 in h && h[0] == Block(n, -1, -1, true) && n >= MIN_BLOCK
    ensures Chain(h, {0}, n) && NoPair(h, {0})
  {
  }
}
