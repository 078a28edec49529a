/** The kernel heap: first fit over a doubly linked list of blocks laid end to end in
    one arena. Addresses are offsets into the arena and -1 is the null pointer.

    Block headers are kept in `header`; writing one also overwrites its 20 bytes of
    the arena, so that what a header write may damage is part of the model. */
module Heap {
  import opened Words

  const HDR: nat := 20        // sizeof(mblock_t)
  const MIN_BLOCK: nat := 36  // header plus MALLOC_ALIGN
  const ARENA_MAX: nat := 0x100_0000

  /** Requests above this wrap around while they are rounded. */
  const MAX_REQUEST: nat := 0x1_0000_0000 - 36

  datatype Block = Block(size: nat, next: int, prev: int, free: bool)

  /** `malloc_round`, in 32-bit arithmetic. */
  function Round(n: u32): (r: nat)
    ensures MIN_BLOCK <= r < MOD32
  {
    var k := Wrap32(Wrap32(n + HDR) + 15) / 16 * 16;
    if k < MIN_BLOCK then MIN_BLOCK else k
  }

  lemma RoundCases(n: u32)
    ensures n > MAX_REQUEST ==> Round(n) == MIN_BLOCK
    ensures n <= 12 ==> Round(n) == MIN_BLOCK
    ensures 12 < n <= MAX_REQUEST ==> Round(n) == (n + 35) / 16 * 16
  {
    if n <= MAX_REQUEST {
      WrapSelf(n + HDR);
      WrapSelf(n + HDR + 15);
    } else if n + HDR < MOD32 {
      WrapSelf(n + HDR);
      assert Wrap32(n + HDR + 15) == n + HDR + 15 - MOD32;
    } else {
      assert Wrap32(n + HDR) == n + HDR - MOD32;
      WrapSelf(n + HDR - MOD32 + 15);
    }
  }

  /** Rounding wastes little: at most 15 bytes, or what is missing to the smallest block. */
  lemma RoundTight(n: u32)
    requires n <= MAX_REQUEST
    ensures Round(n) <= n + 20 + 15 || Round(n) == 36
  {
    hide Round;
    RoundCases(n);
  }

  /** The rounded size covers header and request exactly when nothing wrapped. */
  lemma RoundCovers(n: u32)
    ensures Round(n) >= HDR + n <==> n <= MAX_REQUEST
  {
  }

  /** Small requests get 36 bytes, not a multiple of the nominal alignment of 16, but
      every block size stays a multiple of 4. */
  lemma RoundAligned(n: u32)
    ensures Round(n) % 4 == 0
    ensures Round(n) % 16 == 0 <==> 12 < n <= MAX_REQUEST
  {
    hide Round;
    RoundCases(n);
    Sixteens(n + 35);
    Fours((n + 35) / 16);
  }

  lemma Sixteens(x: nat)
    ensures x / 16 * 16 % 16 == 0
  {
  }

  lemma Fours(q: nat)
    ensures 16 * q % 4 == 0
  {
  }

  // ------------------------------------------------------------- the block list

  function End(h: map<nat, Block>, b: nat): nat
    requires b in h
  {
    b + h[b].size
  }

  /** Block `b` ends where its successor begins, or at the end of the arena; both
      links agree with that. */
  ghost predicate Node(h: map<nat, Block>, s: set<nat>, n: nat, b: nat) {
    b in h && Forward(h, s, n, b) && Backward(h, s, b)
  }

  ghost predicate Forward(h: map<nat, Block>, s: set<nat>, n: nat, b: nat)
    requires b in h
  {
    && h[b].size >= MIN_BLOCK && End(h, b) <= n
    && h[b].next == (if End(h, b) == n then -1 else End(h, b))
    && (End(h, b) < n ==> End(h, b) in s && End(h, b) in h && h[End(h, b)].prev == b)
  }

  ghost predicate Backward(h: map<nat, Block>, s: set<nat>, b: nat)
    requires b in h
  {
    if b == 0 then h[b].prev == -1 else h[b].prev >= 0 && h[b].prev in s && h[b].prev in h && End(h, h[b].prev) == b
  }

  ghost predicate Chain(h: map<nat, Block>, s: set<nat>, n: nat) {
    && 0 in s
    && (forall b {:trigger Node(h, s, n, b)} :: b in s ==> Node(h, s, n, b))
    && Ordered(h, s)
  }

  ghost predicate Ordered(h: map<nat, Block>, s: set<nat>) {
    && (forall b :: b in s ==> b in h)
    && (forall a, b :: a in s && b in s && a < b ==> End(h, a) <= b)
  }

  /** Is `b` free with a free successor? */
  ghost predicate FreePair(h: map<nat, Block>, s: set<nat>, b: nat) {
    b in s && b in h && h[b].free && End(h, b) in s && End(h, b) in h && h[End(h, b)].free
  }

  ghost predicate NoPair(h: map<nat, Block>, s: set<nat>) {
    forall b :: b in s ==> !FreePair(h, s, b)
  }

  /** What the list says about one block. */
  lemma ChainFacts(h: map<nat, Block>, s: set<nat>, n: nat, b: nat)
    requires Chain(h, s, n)
    ensures 0 in s
    ensures b in s ==> Node(h, s, n, b)
    ensures b in s && End(h, b) < n ==> Node(h, s, n, End(h, b))
    ensures b in s && End(h, b) in s ==> End(h, b) < n
    ensures b in s && b > 0 ==> h[b].prev < b && Node(h, s, n, h[b].prev)
    ensures b in s ==> forall a :: a in s && a < b ==> a in h && End(h, a) <= b
    ensures b in s ==> forall a :: a in s && a > b ==> a in h && End(h, b) <= a
  {
    if b in s {
      assert Node(h, s, n, b);
      if End(h, b) in s { assert Node(h, s, n, End(h, b)); }
    }
  }

  /** The blocks tile the arena: every byte lies in exactly one of them. */
  lemma TilesArena(h: map<nat, Block>, s: set<nat>, n: nat, x: nat) returns (b: nat)
    requires Chain(h, s, n) && x < n
    ensures b in s && b <= x < End(h, b)
    ensures forall a :: a in s && a <= x < End(h, a) ==> a == b
  {
    b := 0;
    while End(h, b) <= x
      invariant b in s && b <= x
      decreases x - b
    {
      ChainFacts(h, s, n, b);
      b := End(h, b);
    }
  }

  // -------------------------------------------------------------- list surgery

  /** Block `b` swallows its successor. */
  function Absorb(h: map<nat, Block>, b: nat): map<nat, Block>
    requires b in h && h[b].next >= 0 && h[b].next in h
  {
    var c := h[h[b].next];
    Relink(h[b := h[b].(size := h[b].size + c.size, next := c.next)], c.next, b)
  }

  /** `if (x) x->prev = to`. */
  function Relink(h: map<nat, Block>, x: int, to: nat): map<nat, Block> {
    if x >= 0 && x in h then h[x as nat := h[x].(prev := to)] else h
  }

  /** The swallowed successor aside, every field of every block. */
  lemma AbsorbFields(h: map<nat, Block>, b: nat)
    requires b in h && h[b].next >= 0 && h[b].next in h && h[h[b].next].next != b
    ensures var h', c := Absorb(h, b), h[h[b].next];
      && h'.Keys == h.Keys
      && h'[b].size == h[b].size + c.size && h'[b].next == c.next && h'[b].prev == h[b].prev
      && (forall x :: x in h && x != b ==> h'[x].size == h[x].size && h'[x].next == h[x].next)
      && (forall x :: x in h && x != b ==> h'[x].prev == if x == c.next then b else h[x].prev)
      && (forall x :: x in h ==> h'[x].free == h[x].free)
  {
  }

  lemma AbsorbNode(h: map<nat, Block>, s: set<nat>, n: nat, b: nat, c: nat, a: nat)
    requires Node(h, s, n, b) && h[b].next == c && Node(h, s, n, c) && Node(h, s, n, a) && a != c
    ensures Node(Absorb(h, b), s - {c}, n, a)
  {
  }

  lemma AbsorbOrder(h: map<nat, Block>, s: set<nat>, n: nat, b: nat)
    requires Chain(h, s, n) && b in s && h[b].next >= 0 && h[b].next in h
    ensures Ordered(Absorb(h, b), s - {End(h, b)})
  {
    ChainFacts(h, s, n, b);
    ChainFacts(h, s, n, End(h, b));
  }

  lemma AbsorbKeeps(h: map<nat, Block>, s: set<nat>, n: nat, b: nat)
    requires Chain(h, s, n) && b in s && h[b].next >= 0
    ensures h[b].next == End(h, b) && End(h, b) in s && End(h, b) in h
    ensures Chain(Absorb(h, b), s - {End(h, b)}, n)
  {
    ChainFacts(h, s, n, b);
    AbsorbOrder(h, s, n, b);
    assert Node(h, s, n, End(h, b));
    hide Node, Ordered;
    forall a | a in s - {End(h, b)} ensures Node(Absorb(h, b), s - {End(h, b)}, n, a) {
      AbsorbNode(h, s, n, b, End(h, b), a);
    }
  }

  /** Splitting `need` bytes off the front of `b`; the rest becomes a free block. */
  function Split(h: map<nat, Block>, b: nat, need: nat): map<nat, Block>
    requires b in h && need <= h[b].size
  {
    var rest := Block(h[b].size - need, h[b].next, b, true);
    Relink(h[b + need := rest], h[b].next, b + need)[b := Block(need, b + need, h[b].prev, h[b].free)]
  }

  lemma SplitFields(h: map<nat, Block>, b: nat, need: nat)
    requires b in h && need <= h[b].size && need > 0 && h[b].next != b && h[b].next != b + need
    ensures var h', d := Split(h, b, need), b + need;
      && h'.Keys == h.Keys + {d}
      && h'[d] == Block(h[b].size - need, h[b].next, b, true)
      && h'[b] == Block(need, d, h[b].prev, h[b].free)
      && (forall x :: x in h && x != b && x != d ==> h'[x].size == h[x].size && h'[x].next == h[x].next && h'[x].free == h[x].free)
      && (forall x :: x in h && x != b && x != d ==> h'[x].prev == if x == h[b].next then d else h[x].prev)
  {
  }

  lemma SplitNode(h: map<nat, Block>, s: set<nat>, n: nat, b: nat, need: nat, a: nat)
    requires Node(h, s, n, b) && b in s && MIN_BLOCK <= need && need + MIN_BLOCK <= h[b].size && b + need !in s
    requires if a == b + need then true else a in s && Node(h, s, n, a)
    ensures Node(Split(h, b, need), s + {b + need}, n, a)
  {
    SplitFields(h, b, need);
    hide Split;
    assert Forward(Split(h, b, need), s + {b + need}, n, a);
  }

  lemma SplitKeeps(h: map<nat, Block>, s: set<nat>, n: nat, b: nat, need: nat)
    requires Chain(h, s, n) && b in s && MIN_BLOCK <= need && need + MIN_BLOCK <= h[b].size
    ensures Chain(Split(h, b, need), s + {b + need}, n)
  {
    ChainFacts(h, s, n, b);
    assert Ordered(Split(h, b, need), s + {b + need});
    hide Node, Ordered;
    var s' := s + {b + need};
    forall a | a in s' ensures Node(Split(h, b, need), s', n, a) {
      SplitNode(h, s, n, b, need, a);
    }
  }

  function Mark(h: map<nat, Block>, b: nat, free: bool): map<nat, Block>
    requires b in h
  {
    h[b := h[b].(free := free)]
  }

  lemma MarkKeeps(h: map<nat, Block>, s: set<nat>, n: nat, b: nat, free: bool)
    requires Chain(h, s, n) && b in s
    ensures Chain(Mark(h, b, free), s, n)
  {
    hide Node;
    forall a | a in s ensures Node(Mark(h, b, free), s, n, a) {
      MarkNode(h, s, n, b, free, a);
    }
  }

  lemma MarkNode(h: map<nat, Block>, s: set<nat>, n: nat, b: nat, free: bool, a: nat)
    requires b in h && Node(h, s, n, a)
    ensures Node(Mark(h, b, free), s, n, a)
  {
  }

  // ------------------------------------------------------- taking and releasing

  ghost predicate Live(h: map<nat, Block>, s: set<nat>, a: nat) {
    a in s && a in h && !h[a].free
  }

  /** Apart from `x`, the live blocks and their sizes are the same. */
  ghost predicate SameLive(h: map<nat, Block>, s: set<nat>, h': map<nat, Block>, s': set<nat>, x: int) {
    forall a :: a != x ==> (Live(h, s, a) <==> Live(h', s', a)) && (Live(h, s, a) ==> h'[a].size == h[a].size)
  }

  ghost predicate Fits(h: map<nat, Block>, s: set<nat>, need: nat, b: nat) {
    b in s && b in h && h[b].free && h[b].size >= need
  }

  function TakenHeader(h: map<nat, Block>, b: nat, need: nat): map<nat, Block>
    requires b in h && need <= h[b].size
  {
    if h[b].size >= need + MIN_BLOCK then Mark(Split(h, b, need), b, false) else Mark(h, b, false)
  }

  ghost function TakenStarts(h: map<nat, Block>, s: set<nat>, b: nat, need: nat): set<nat>
    requires b in h
  {
    if h[b].size >= need + MIN_BLOCK then s + {b + need} else s
  }

  lemma TakeKeeps(h: map<nat, Block>, s: set<nat>, n: nat, b: nat, need: nat)
    requires Chain(h, s, n) && NoPair(h, s) && Fits(h, s, need, b) && need >= MIN_BLOCK
    ensures Chain(TakenHeader(h, b, need), TakenStarts(h, s, b, need), n)
    ensures NoPair(TakenHeader(h, b, need), TakenStarts(h, s, b, need))
    ensures SameLive(h, s, TakenHeader(h, b, need), TakenStarts(h, s, b, need), b)
  {
    hide Chain, Node, NoPair, SameLive, Split, Fits;
    assert b in s && b in h by { FitsFacts(h, s, need, b); }
    if h[b].size >= need + MIN_BLOCK {
      SplitKeeps(h, s, n, b, need);
      SplitStart(h, b, need);
      MarkKeeps(Split(h, b, need), s + {b + need}, n, b, false);
      SplitNoPair(h, s, n, b, need);
    } else {
      MarkKeeps(h, s, n, b, false);
      MarkNoPair(h, s, b);
    }
  }

  /** Taking a block takes no more than was asked for, but for a rest too small to be a
      block of its own. */
  lemma TakenTight(h: map<nat, Block>, s: set<nat>, b: nat, need: nat)
    requires Fits(h, s, need, b) && need > 0
    ensures b in TakenHeader(h, b, need)
    ensures need <= TakenHeader(h, b, need)[b].size < need + 20 + 16
  {
  }

  /** Every byte of the arena lies in a live block or in a free one. */
  ghost predicate FreeByte(h: map<nat, Block>, s: set<nat>, x: nat) {
    exists b :: b in s && b in h && h[b].free && b <= x < End(h, b)
  }

  lemma LiveOrFree(h: map<nat, Block>, s: set<nat>, n: nat, x: nat)
    requires Chain(h, s, n) && x < n
    ensures FreeByte(h, s, x) <==> forall a: nat :: Live(h, s, a) ==> !(a <= x < End(h, a))
  {
    var b := TilesArena(h, s, n, x);
    hide Chain;
    if FreeByte(h, s, x) {
      var c :| c in s && c in h && h[c].free && c <= x < End(h, c);
      assert c == b;
    }
    if !h[b].free { assert Live(h, s, b); }
  }

  lemma FitsFacts(h: map<nat, Block>, s: set<nat>, need: nat, b: nat)
    requires Fits(h, s, need, b)
    ensures b in s && b in h && h[b].free && h[b].size >= need
  {
  }

  lemma SplitStart(h: map<nat, Block>, b: nat, need: nat)
    requires b in h && need <= h[b].size
    ensures b in Split(h, b, need)
  {
  }

  lemma MarkNoPair(h: map<nat, Block>, s: set<nat>, b: nat)
    requires NoPair(h, s) && b in h
    ensures NoPair(Mark(h, b, false), s) && SameLive(h, s, Mark(h, b, false), s, b)
  {
  }

  lemma SplitNoPair(h: map<nat, Block>, s: set<nat>, n: nat, b: nat, need: nat)
    requires Chain(h, s, n) && NoPair(h, s) && Fits(h, s, need, b) && MIN_BLOCK <= need && need + MIN_BLOCK <= h[b].size
    ensures var h', s' := Mark(Split(h, b, need), b, false), s + {b + need}; NoPair(h', s') && SameLive(h, s, h', s', b)
  {
    hide Chain, Split, Node;
    SplitPlace(h, s, n, b, need);
    SplitFields(h, b, need);
    var h', s' := Mark(Split(h, b, need), b, false), s + {b + need};
    assert !FreePair(h, s, b);
    forall a | a in s' ensures !FreePair(h', s', a) {
      if a in s { assert !FreePair(h, s, a); }
    }
  }

  /** Where the rest of a split block lies. */
  lemma SplitPlace(h: map<nat, Block>, s: set<nat>, n: nat, b: nat, need: nat)
    requires Chain(h, s, n) && b in s && MIN_BLOCK <= need && need + MIN_BLOCK <= h[b].size
    ensures b + need !in s && h[b].next != b && h[b].next != b + need
    ensures forall a :: a in s ==> a in h && (a == b || End(h, a) <= b || b + need < a)
  {
    ChainFacts(h, s, n, b);
  }

  /** A free pair can only involve `b`. */
  ghost predicate PairsAt(h: map<nat, Block>, s: set<nat>, b: nat) {
    forall a :: a in s && FreePair(h, s, a) ==> a == b || End(h, a) == b
  }

  /** `free`, first half: mark the block and swallow a free successor. */
  function JoinNext(h: map<nat, Block>, b: nat): map<nat, Block>
    requires b in h
  {
    if h[b].next >= 0 && h[b].next in h && h[h[b].next].free then Absorb(h, b) else h
  }

  ghost function JoinedNext(h: map<nat, Block>, s: set<nat>, b: nat): set<nat>
    requires b in h
  {
    if h[b].next >= 0 && h[b].next in h && h[h[b].next].free then s - {End(h, b)} else s
  }

  lemma JoinNextKeeps(h: map<nat, Block>, s: set<nat>, n: nat, b: nat)
    requires Chain(h, s, n) && b in s && PairsAt(h, s, b)
    ensures Chain(JoinNext(h, b), JoinedNext(h, s, b), n)
    ensures SameLive(h, s, JoinNext(h, b), JoinedNext(h, s, b), b)
    ensures var h', s' := JoinNext(h, b), JoinedNext(h, s, b);
      && b in s' && b in h' && !FreePair(h', s', b) && PairsAt(h', s', b)
      && h'[b].prev == h[b].prev && h'[b].free == h[b].free && h'[b].size >= h[b].size
      && (b > 0 ==> h[b].prev in h' && h[b].prev in s')
      && (forall a :: a != b && a in s' && FreePair(h', s', a) ==> FreePair(h, s, a))
  {
    ChainFacts(h, s, n, b);
    if h[b].next >= 0 && h[h[b].next].free {
      AbsorbKeeps(h, s, n, b);
      JoinPairs(h, s, n, b);
    }
  }

  lemma JoinPairs(h: map<nat, Block>, s: set<nat>, n: nat, b: nat)
    requires Chain(h, s, n) && b in s && PairsAt(h, s, b) && h[b].next >= 0 && h[b].next in h && h[h[b].next].free
    ensures var h', s' := Absorb(h, b), s - {End(h, b)};
      && h'.Keys == h.Keys
      && !FreePair(h', s', b) && PairsAt(h', s', b) && SameLive(h, s, h', s', b)
      && (forall a :: a != b && a in s' && FreePair(h', s', a) ==> FreePair(h, s, a))
      && h'[b].prev == h[b].prev && h'[b].free == h[b].free && h'[b].size >= h[b].size
  {
    hide Chain, Absorb;
    ChainFacts(h, s, n, b);
    ChainFacts(h, s, n, End(h, b));
    AbsorbFields(h, b);
    var h', s', c := Absorb(h, b), s - {End(h, b)}, End(h, b);
    assert FreePair(h', s', b) ==> FreePair(h, s, c);
    forall a | a in s' && FreePair(h', s', a) ensures a == b || End(h', a) == b {
      if a != b { assert FreePair(h, s, a); }
    }
  }

  /** `free`, second half: a free predecessor swallows the block. */
  function JoinPrev(h: map<nat, Block>, b: nat): map<nat, Block>
    requires b in h
  {
    var p := h[b].prev;
    if p >= 0 && p in h && h[p].free then JoinNext(h, p) else h
  }

  ghost function JoinedPrev(h: map<nat, Block>, s: set<nat>, b: nat): set<nat>
    requires b in h
  {
    var p := h[b].prev;
    if p >= 0 && p in h && h[p].free then JoinedNext(h, s, p) else s
  }

  lemma JoinPrevKeeps(h: map<nat, Block>, s: set<nat>, n: nat, b: nat)
    requires Chain(h, s, n) && b in s && PairsAt(h, s, b) && !FreePair(h, s, b) && h[b].free
    ensures Chain(JoinPrev(h, b), JoinedPrev(h, s, b), n) && NoPair(JoinPrev(h, b), JoinedPrev(h, s, b))
    ensures SameLive(h, s, JoinPrev(h, b), JoinedPrev(h, s, b), -1)
  {
    ChainFacts(h, s, n, b);
    hide Chain, JoinNext, JoinedNext;
    var p := h[b].prev;
    if p >= 0 && h[p].free {
      assert PairsAt(h, s, p);
      JoinNextKeeps(h, s, n, p);
    } else {
      forall a | a in s ensures !FreePair(h, s, a) {
        ChainFacts(h, s, n, a);
      }
    }
  }

  lemma MarkPairs(h: map<nat, Block>, s: set<nat>, b: nat)
    requires NoPair(h, s) && b in s && b in h
    ensures PairsAt(Mark(h, b, true), s, b) && SameLive(h, s, Mark(h, b, true), s, b)
  {
  }

  /** Freeing a block keeps the list, leaves no free pair and changes no other live block. */
  lemma ReleaseKeeps(h: map<nat, Block>, s: set<nat>, n: nat, b: nat)
    requires Chain(h, s, n) && NoPair(h, s) && b in s
    ensures var h1 := Mark(h, b, true);
      var h2, s2 := JoinNext(h1, b), JoinedNext(h1, s, b);
      && b in h2 && b in s2 && h2[b].free
      && var h3, s3 := JoinPrev(h2, b), JoinedPrev(h2, s2, b);
      && Chain(h3, s3, n) && NoPair(h3, s3) && SameLive(h, s, h3, s3, b) && !Live(h3, s3, b)
  {
    hide Chain, NoPair, JoinPrev, JoinedPrev, JoinNext, JoinedNext, PairsAt, FreePair;
    ChainFacts(h, s, n, b);
    MarkKeeps(h, s, n, b, true);
    MarkPairs(h, s, b);
    var h1 := Mark(h, b, true);
    JoinNextKeeps(h1, s, n, b);
    JoinPrevKeeps(JoinNext(h1, b), JoinedNext(h1, s, b), n, b);
  }
}
