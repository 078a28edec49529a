/** `fs_deserialize_fill` through the windowed reader, against the parser of `Image`. */
module Load {
  import opened Words
  import opened Paths
  import opened FilePool
  import opened Files
  import opened Tree
  import opened FileSystem
  import opened Image
  import opened Disk

  method LoadNames(rd: Reader, n: nat) returns (ok: bool, names: seq<Text>)
    requires rd.Valid()
    modifies rd, rd.stage
    ensures rd.Valid()
    ensures match DecNames(old(rd.Remaining()), n)
      case None => !ok
      case Some((v, rest)) => ok && names == v && rd.Remaining() == rest
  {
    hide rd.Valid, rd.Remaining, CString;
    ghost var all := DecNames(rd.Remaining(), n);
    names, ok := [], true;
    ContinuesStart(all);
    for i := 0 to n
      invariant rd.Valid() && ok
      invariant Continues(all, names, DecNames(rd.Remaining(), n - i))
    {
      ghost var s := rd.Remaining();
      var rc, dst := rd.Fill(NAME_CAP);
      if rc != 0 { return false, names; }
      ContinuesStep(all, names, CString(dst), DecNames(s, n - i), DecNames(s[NAME_CAP..], n - i - 1));
      names := names + [CString(dst)];
    }
  }

  /** Parsing the whole is parsing the rest behind what was read already. */
  ghost predicate Continues<T>(all: Option<(seq<T>, seq<byte>)>, done: seq<T>, left: Option<(seq<T>, seq<byte>)>) {
    match left
    case None => all == None
    case Some((v, rest)) => all == Some((done + v, rest))
  }

  lemma ContinuesStart<T>(all: Option<(seq<T>, seq<byte>)>)
    ensures Continues(all, [], all)
  {
    if all.Some? { assert [] + all.value.0 == all.value.0; }
  }

  lemma ContinuesStep<T>(all: Option<(seq<T>, seq<byte>)>, done: seq<T>, x: T,
                         left: Option<(seq<T>, seq<byte>)>, left': Option<(seq<T>, seq<byte>)>)
    requires Continues(all, done, left)
    requires left == match left' case None => None case Some((v, rest)) => Some(([x] + v, rest))
    ensures Continues(all, done + [x], left')
  {
    if left'.Some? { assert done + ([x] + left'.value.0) == done + [x] + left'.value.0; }
  }

  method LoadSizes(rd: Reader, n: nat) returns (ok: bool, sizes: seq<nat>)
    requires rd.Valid()
    modifies rd, rd.stage
    ensures rd.Valid()
    ensures match DecSizes(old(rd.Remaining()), n)
      case None => !ok
      case Some((v, rest)) => ok && sizes == v && rd.Remaining() == rest
  {
    hide rd.Valid, rd.Remaining, Un32;
    ghost var all := DecSizes(rd.Remaining(), n);
    sizes, ok := [], true;
    ContinuesStart(all);
    for i := 0 to n
      invariant rd.Valid() && ok
      invariant Continues(all, sizes, DecSizes(rd.Remaining(), n - i))
    {
      ghost var s := rd.Remaining();
      var rc, tmp := rd.Fill(4);
      if rc != 0 { return false, sizes; }
      if Un32(tmp) >= MAX_FILE_DATA { return false, sizes; }
      ContinuesStep(all, sizes, Un32(tmp) as nat, DecSizes(s, n - i), DecSizes(s[4..], n - i - 1));
      sizes := sizes + [Un32(tmp) as nat];
    }
  }

  ghost function Behind(owner: seq<int>, mode: seq<int>, r: Owners): Owners {
    r.(owner := owner + r.owner, mode := mode + r.mode)
  }

  lemma OwnersStep(owner: seq<int>, mode: seq<int>, s: seq<byte>, n: nat)
    requires n > 0 && |s| >= 6
    ensures Behind(owner, mode, DecOwners(s, n)) ==
      Behind(owner + [Signed32(Un32(s[..4]))], mode + [Un16(s[4..6])], DecOwners(s[6..], n - 1))
  {
  }

  lemma OwnersWhole(owner: seq<int>, mode: seq<int>, s: seq<byte>, n: nat)
    ensures DecOwners(s, n) == Behind(owner[..0], mode[..0], DecOwners(s, n))
    ensures Behind(owner, mode, DecOwners(s, 0)) == Owners(owner, mode, s, true)
  {
  }

  /** Where the image ends inside the section, the rest keeps its defaults. */
  lemma OwnersStop(owner: seq<int>, mode: seq<int>, i: nat, n: nat, s: seq<byte>)
    requires |owner| == |mode| == n && i < n && |s| < 6
    requires forall j :: i < j < n ==> owner[j] == 0
    requires forall j :: i <= j < n ==> mode[j] == DEFAULT_MODE
    requires owner[i] == if |s| < 4 then 0 else Signed32(Un32(s[..4]))
    ensures Behind(owner[..i], mode[..i], DecOwners(s, n - i)) == Owners(owner, mode, if |s| < 4 then s else s[4..], false)
  {
  }

  /** Owners and modes; reading stops quietly where the image ends. */
  method LoadOwners(rd: Reader, n: nat) returns (complete: bool, owner: seq<int>, mode: seq<int>)
    requires rd.Valid()
    modifies rd, rd.stage
    ensures rd.Valid()
    ensures DecOwners(old(rd.Remaining()), n) == Owners(owner, mode, rd.Remaining(), complete)
  {
    hide rd.Valid, rd.Remaining, Un32, Un16, Signed32, DecOwners, Behind;
    ghost var all := DecOwners(rd.Remaining(), n);
    owner, mode := seq(n, _ => 0), seq(n, _ => DEFAULT_MODE);
    OwnersWhole(owner, mode, rd.Remaining(), n);
    for i := 0 to n
      invariant rd.Valid() && |owner| == |mode| == n
      invariant forall j :: i <= j < n ==> owner[j] == 0 && mode[j] == DEFAULT_MODE
      invariant all == Behind(owner[..i], mode[..i], DecOwners(rd.Remaining(), n - i))
    {
      ghost var s, done, had := rd.Remaining(), owner[..i], mode[..i];
      var rc, tmp := rd.Fill(4);
      if rc != 0 {
        OwnersStop(owner, mode, i, n, s);
        return false, owner, mode;
      }
      owner := owner[i := Signed32(Un32(tmp))];
      rc, tmp := rd.Fill(2);
      if rc != 0 {
        assert owner[..i] == done;
        OwnersStop(owner, mode, i, n, s);
        return false, owner, mode;
      }
      mode := mode[i := Un16(tmp)];
      OwnersStep(done, had, s, n - i);
      assert s[4..][..2] == s[4..6] && s[4..][2..] == s[6..];
      assert owner[..i + 1] == done + [owner[i]] && mode[..i + 1] == had + [mode[i]];
    }
    complete := true;
    OwnersWhole(owner, mode, rd.Remaining(), 0);
    assert owner[..n] == owner && mode[..n] == mode;
  }

  // ----------------------------------------------------------------- file data

  /** Everything before `tail` is taken; the rest, if any, is one free block. */
  ghost predicate TailAt(header: map<nat, Header>, starts: set<nat>, bytes: nat, tail: nat) {
    && (tail == bytes || (tail in starts && tail in header && tail + HDR <= bytes && header[tail] == Header(bytes - tail - HDR, true)))
    && (forall b :: b in starts && b != tail ==> b < tail && b in header && !header[b].free)
    && (tail == bytes ==> tail !in starts)
  }

  /** First fit in such a pool can only be the tail block. */
  lemma TailRoom(header: map<nat, Header>, starts: set<nat>, bytes: nat, tail: nat, size: nat, need: nat)
    requires TailAt(header, starts, bytes, tail) && need == Round4(size + 1)
    ensures NoRoom(header, starts, size) <==> NextTail(bytes, tail, size) == None
    ensures forall b :: FirstFit(header, starts, need, b) ==> b == tail
  {
  }

  lemma TailStep(header: map<nat, Header>, starts: set<nat>, bytes: nat, tail: nat, size: nat, p: int,
                 header': map<nat, Header>, starts': set<nat>)
    requires TailAt(header, starts, bytes, tail) && FirstBlock(header, starts, size, p, header', starts')
    ensures NextTail(bytes, tail, size).Some?
    ensures TailAt(header', starts', bytes, NextTail(bytes, tail, size).value)
  {
  }

  /** The allocation of one file during loading. */
  method AllocFile(files: FileData, i: nat, ghost tail: nat) returns (ok: bool, ghost tail': nat)
    requires files.Valid() && i < MAX_F
    requires |files.fdata| == |files.fsize| == MAX_F && files.fdata[i] == -1 && files.fsize[i] < MAX_FILE_DATA
    requires TailAt(files.pool.header, files.pool.starts, files.pool.base.Length, tail)
    modifies files, files.pool, files.pool.base
    ensures files.Valid() && |files.fdata| == |files.fsize| == MAX_F && files.fsize == old(files.fsize)
    ensures var size := old(files.fsize[i]);
      var next := if size == 0 then Some(tail) else NextTail(files.pool.base.Length, tail, size);
      && (ok <==> next.Some?)
      && (ok ==> tail' == next.value && |files.Contents(i)| == size && (files.fdata[i] == -1 <==> size == 0))
    ensures ok ==> TailAt(files.pool.header, files.pool.starts, files.pool.base.Length, tail')
    ensures forall j :: 0 <= j < MAX_F && j != i ==> files.fdata[j] == old(files.fdata[j]) && files.Contents(j) == old(files.Contents(j))
  {
    var size := files.fsize[i];
    tail' := tail;
    TailRoom(files.pool.header, files.pool.starts, files.pool.base.Length, tail, size, Round4(size + 1));
    hide Consistent, Tiling, Coalesced, TailAt, NextTail, FirstBlock, NoRoom;
    ghost var h, st := files.pool.header, files.pool.starts;
    var code := files.Resize(i, size);
    if code != 0 { return false, tail; }
    if size > 0 {
      TailStep(h, st, files.pool.base.Length, tail, size, files.fdata[i], files.pool.header, files.pool.starts);
      tail' := NextTail(files.pool.base.Length, tail, size).value;
    }
    ok := true;
  }

  /** One file of the data section: allocate, then read straight into the pool. */
  method LoadFile(rd: Reader, files: FileData, i: nat, ghost tail: nat) returns (ok: bool, ghost tail': nat)
    requires rd.Valid() && files.Valid() && i < MAX_F && rd.stage != files.pool.base
    requires |files.fdata| == |files.fsize| == MAX_F && files.fdata[i] == -1 && files.fsize[i] < MAX_FILE_DATA
    requires TailAt(files.pool.header, files.pool.starts, files.pool.base.Length, tail)
    modifies rd, rd.stage, files, files.pool, files.pool.base
    ensures rd.Valid() && files.Valid() && |files.fdata| == |files.fsize| == MAX_F && files.fsize == old(files.fsize)
    ensures var size, s := old(files.fsize[i]), old(rd.Remaining());
      var next := if size == 0 then Some(tail) else NextTail(files.pool.base.Length, tail, size);
      && (ok <==> next.Some? && size <= |s|)
      && (ok ==> tail' == next.value && files.Contents(i) == s[..size] && rd.Remaining() == s[size..])
      && (ok ==> (files.fdata[i] == -1 <==> size == 0))
    ensures ok ==> TailAt(files.pool.header, files.pool.starts, files.pool.base.Length, tail')
    ensures forall j :: 0 <= j < MAX_F && j != i ==> files.fdata[j] == old(files.fdata[j]) && files.Contents(j) == old(files.Contents(j))
  {
    hide rd.Valid, rd.Remaining, files.Valid, TailAt, NextTail, files.Contents;
    var size := files.fsize[i];
    ok, tail' := AllocFile(files, i, tail);
    if !ok { return; }
    var rc, dst := rd.Fill(size);
    if rc != 0 { return false, tail'; }
    if size > 0 {
      ghost var was := files.Contents(i);
      files.Store(i, 0, dst);
      assert was[..0] + dst + was[size..] == dst;
    }
  }

  /** One slot of the data section: its bytes, the new tail and the rest. */
  function SlotStep(bytes: nat, tail: nat, used: bool, size: nat, s: seq<byte>): Option<(seq<byte>, nat, seq<byte>)> {
    if !used || size == 0 then Some(([], tail, s))
    else
      match NextTail(bytes, tail, size)
      case None => None
      case Some(tail') => if |s| < size then None else Some((s[..size], tail', s[size..]))
  }

  lemma DecDataStep(bytes: nat, tail: nat, used: seq<bool>, sizes: seq<nat>, i: nat, s: seq<byte>,
                    all: Option<(seq<seq<byte>>, seq<byte>)>, done: seq<seq<byte>>)
    requires |used| == |sizes| && i < |sizes|
    requires Continues(all, done, DecData(bytes, tail, used[i..], sizes[i..], s))
    ensures match SlotStep(bytes, tail, used[i], sizes[i], s)
      case None => all == None
      case Some((item, tail', s')) =>
        Continues(all, done + [item], DecData(bytes, tail', used[i + 1..], sizes[i + 1..], s'))
  {
    hide NextTail;
    assert used[i..][1..] == used[i + 1..] && sizes[i..][1..] == sizes[i + 1..];
    match SlotStep(bytes, tail, used[i], sizes[i], s)
    case None =>
    case Some((item, tail', s')) =>
      ContinuesStep(all, done, item, DecData(bytes, tail, used[i..], sizes[i..], s), DecData(bytes, tail', used[i + 1..], sizes[i + 1..], s'));
  }

  /** The slot of an unused file holds nothing, whatever size the image gave it. */
  method ClearSize(files: FileData, i: nat)
    requires files.Valid() && i < MAX_F && |files.fdata| == |files.fsize| == MAX_F && files.fdata[i] == -1
    modifies files`fsize
    ensures files.Valid() && files.fsize == old(files.fsize)[i := 0] && files.Contents(i) == []
    ensures forall j :: 0 <= j < MAX_F && j != i ==> files.Contents(j) == old(files.Contents(j))
  {
    files.fsize := files.fsize[i := 0];
  }

  method LoadSlot(rd: Reader, files: FileData, used: bool, i: nat, ghost tail: nat) returns (ok: bool, ghost tail': nat)
    requires rd.Valid() && files.Valid() && i < MAX_F && rd.stage != files.pool.base
    requires |files.fdata| == |files.fsize| == MAX_F && files.fdata[i] == -1 && files.fsize[i] < MAX_FILE_DATA
    requires TailAt(files.pool.header, files.pool.starts, files.pool.base.Length, tail)
    modifies rd, rd.stage, files, files.pool, files.pool.base
    ensures rd.Valid() && files.Valid() && |files.fdata| == |files.fsize| == MAX_F
    ensures match SlotStep(files.pool.base.Length, tail, used, old(files.fsize[i]), old(rd.Remaining()))
      case None => !ok
      case Some((item, t, rest)) => ok && tail' == t && files.Contents(i) == item && rd.Remaining() == rest
    ensures ok ==> (files.fdata[i] == -1 <==> files.fsize[i] == 0) && (!used ==> files.fdata[i] == -1)
    ensures ok ==> TailAt(files.pool.header, files.pool.starts, files.pool.base.Length, tail')
    ensures forall j :: 0 <= j < MAX_F && j != i ==>
      files.fdata[j] == old(files.fdata[j]) && files.fsize[j] == old(files.fsize[j]) && files.Contents(j) == old(files.Contents(j))
  {
    hide rd.Valid, rd.Remaining, files.Valid, files.Contents, TailAt, NextTail;
    if !used {
      ClearSize(files, i);
      return true, tail;
    }
    ok, tail' := LoadFile(rd, files, i, tail);
  }

  /** The data section, slot by slot, into an empty pool. */
  method LoadData(rd: Reader, files: FileData, used: seq<bool>, sizes: seq<nat>) returns (ok: bool)
    requires rd.Valid() && files.Valid() && rd.stage != files.pool.base
    requires |used| == |sizes| == MAX_F && (forall j :: 0 <= j < MAX_F ==> sizes[j] < MAX_FILE_DATA)
    requires |files.fdata| == MAX_F && files.fsize == sizes && (forall j :: 0 <= j < MAX_F ==> files.fdata[j] == -1)
    requires TailAt(files.pool.header, files.pool.starts, files.pool.base.Length, 0)
    modifies rd, rd.stage, files, files.pool, files.pool.base
    ensures rd.Valid() && files.Valid() && |files.fdata| == |files.fsize| == MAX_F
    ensures match DecData(files.pool.base.Length, 0, used, sizes, old(rd.Remaining()))
      case None => !ok
      case Some((data, rest)) => ok && files.All() == data && rd.Remaining() == rest
    ensures ok ==> Settled(files, used, MAX_F)
  {
    hide rd.Valid, rd.Remaining, files.Valid, files.Contents, files.All, TailAt, NextTail, SlotStep, DecData, Continues;
    ghost var bytes, tail := files.pool.base.Length, 0;
    ghost var all := DecData(bytes, 0, used, sizes, rd.Remaining());
    ghost var done: seq<seq<byte>> := [];
    ContinuesStart(all);
    assert used[0..] == used && sizes[0..] == sizes;
    for i := 0 to MAX_F
      invariant rd.Valid() && files.Valid() && |files.fdata| == |files.fsize| == MAX_F
      invariant TailAt(files.pool.header, files.pool.starts, bytes, tail)
      invariant forall j :: i <= j < MAX_F ==> files.fdata[j] == -1 && files.fsize[j] == sizes[j]
      invariant Settled(files, used, i)
      invariant |done| == i && forall j :: 0 <= j < i ==> done[j] == files.Contents(j)
      invariant Continues(all, done, DecData(bytes, tail, used[i..], sizes[i..], rd.Remaining()))
    {
      DecDataStep(bytes, tail, used, sizes, i, rd.Remaining(), all, done);
      ok, tail := LoadSlot(rd, files, used[i], i, tail);
      if !ok { return; }
      done := done + [files.Contents(i)];
    }
    ok := true;
    assert done == files.All();
    DecDataEnd(bytes, tail, used[MAX_F..], sizes[MAX_F..], rd.Remaining(), all, done);
  }

  lemma DecDataEnd(bytes: nat, tail: nat, used: seq<bool>, sizes: seq<nat>, s: seq<byte>,
                   all: Option<(seq<seq<byte>>, seq<byte>)>, done: seq<seq<byte>>)
    requires used == [] && sizes == [] && Continues(all, done, DecData(bytes, tail, used, sizes, s))
    ensures all == Some((done, s))
  {
    assert done + [] == done;
  }

  /** A slot without a block has size 0, and an unused slot has no block. */
  ghost predicate Settled(files: FileData, used: seq<bool>, i: nat)
    requires |files.fdata| == |files.fsize| == MAX_F == |used| && i <= MAX_F
    reads files
  {
    forall j :: 0 <= j < i ==> (files.fdata[j] == -1 <==> files.fsize[j] == 0) && (!used[j] ==> files.fdata[j] == -1)
  }

  // ------------------------------------------------------------- the whole image

  /** `fpool_free` of every file and `fpool_init`. */
  method ResetFiles(files: FileData)
    requires files.Valid() && files.pool.base.Length > HDR
    modifies files, files.pool
    ensures files.Valid() && |files.fdata| == |files.fsize| == MAX_F
    ensures forall j :: 0 <= j < MAX_F ==> files.fdata[j] == -1 && files.fsize[j] == 0
    ensures TailAt(files.pool.header, files.pool.starts, files.pool.base.Length, 0)
  {
    assert |files.fdata| == |files.fsize| == MAX_F;
    for i := 0 to MAX_F
      invariant files.Valid() && |files.fdata| == |files.fsize| == MAX_F
      invariant forall j :: 0 <= j < i ==> files.fdata[j] == -1 && files.fsize[j] == 0
    {
      hide Consistent, Tiling, Coalesced;
      files.Release(i);
    }
    files.pool.Reset();
  }

  /** The ownership section. */
  method LoadOwnership(rd: Reader, fs: FileSys, ghost t: Fs)
    requires rd.Valid()
    modifies rd, rd.stage, fs`downer, fs`dmode, fs`fowner, fs`fmode
    ensures rd.Valid()
    ensures |fs.downer| == |fs.dmode| == MAX_D && |fs.fowner| == |fs.fmode| == MAX_F
    ensures ParseOwners(t, old(rd.Remaining())) ==
      Some((t.(downer := fs.downer, dmode := fs.dmode, fowner := fs.fowner, fmode := fs.fmode), rd.Remaining()))
  {
    hide rd.Valid, rd.Remaining, DecOwners;
    var complete, owner, mode := LoadOwners(rd, MAX_D);
    fs.downer, fs.dmode := owner, mode;
    fs.fowner, fs.fmode := seq(MAX_F, _ => 0), seq(MAX_F, _ => DEFAULT_MODE);
    if complete {
      complete, owner, mode := LoadOwners(rd, MAX_F);
      fs.fowner, fs.fmode := owner, mode;
    }
  }

  /** The cwd and the ownership section: the end of `fs_deserialize_fill`. */
  method LoadEnd(rd: Reader, fs: FileSys, ghost t: Fs) returns (code: int)
    requires rd.Valid() && fs.files.Valid() && rd.stage != fs.files.pool.base
    requires |fs.dused| == |fs.dname| == MAX_D && |fs.fused| == |fs.fname| == MAX_F
    requires |fs.files.fdata| == |fs.files.fsize| == MAX_F && Settled(fs.files, fs.fused, MAX_F)
    requires t == Fs(fs.dused, fs.dname, [], [], fs.fused, fs.fname, [], [], fs.files.All(), [])
    modifies rd, rd.stage, fs`downer, fs`dmode, fs`fowner, fs`fmode, fs`cwd
    ensures rd.Valid()
    ensures match ParseEnd(t, old(rd.Remaining()))
      case None => code == -1
      case Some((t', rest)) => code == 0 && fs.Valid() && fs.View() == t' && rd.Remaining() == rest
  {
    hide rd.Valid, rd.Remaining, fs.files.Valid, FileData.All, CString, ParseOwners;
    var rc, dst := rd.Fill(NAME_CAP);
    if rc != 0 { return -1; }
    fs.cwd := CString(dst);
    LoadOwnership(rd, fs, t.(cwd := CString(dst)));
    return 0;
  }

  /** File names, file data, cwd and owners, once the tables before them are read. */
  method LoadFiles(rd: Reader, fs: FileSys, sizes: seq<nat>) returns (code: int)
    requires rd.Valid() && fs.files.Valid() && rd.stage != fs.files.pool.base
    requires |fs.dused| == |fs.dname| == MAX_D && |fs.fused| == |sizes| == MAX_F
    requires forall j :: 0 <= j < MAX_F ==> sizes[j] < MAX_FILE_DATA
    requires |fs.files.fdata| == MAX_F && fs.files.fsize == sizes && (forall j :: 0 <= j < MAX_F ==> fs.files.fdata[j] == -1)
    requires TailAt(fs.files.pool.header, fs.files.pool.starts, fs.files.pool.base.Length, 0)
    modifies rd, rd.stage, fs, fs.files, fs.files.pool, fs.files.pool.base
    ensures rd.Valid()
    ensures match ParseFiles(fs.files.pool.base.Length, old(fs.dused), old(fs.dname), old(fs.fused), sizes, old(rd.Remaining()))
      case None => code == -1
      case Some((t, rest)) => code == 0 && fs.Valid() && fs.View() == t && rd.Remaining() == rest
  {
    hide rd.Valid, rd.Remaining, fs.files.Valid, fs.Valid, fs.View, FileData.Contents, FileData.All, TailAt, DecData, DecNames, ParseEnd, Settled;
    var ok, names := LoadNames(rd, MAX_F);
    if !ok { return -1; }
    fs.fname := names;
    ok := LoadData(rd, fs.files, fs.fused, sizes);
    if !ok { return -1; }
    code := LoadEnd(rd, fs, Fs(fs.dused, fs.dname, [], [], fs.fused, fs.fname, [], [], fs.files.All(), []));
  }

  /** The tables between the header and the file names. */
  method LoadDirs(rd: Reader, fs: FileSys) returns (code: int)
    requires rd.Valid() && fs.files.Valid() && rd.stage != fs.files.pool.base && |fs.dused| == MAX_D
    requires |fs.files.fdata| == |fs.files.fsize| == MAX_F && (forall j :: 0 <= j < MAX_F ==> fs.files.fdata[j] == -1)
    requires TailAt(fs.files.pool.header, fs.files.pool.starts, fs.files.pool.base.Length, 0)
    modifies rd, rd.stage, fs, fs.files, fs.files.pool, fs.files.pool.base
    ensures rd.Valid()
    ensures match ParseDirs(fs.files.pool.base.Length, old(fs.dused), old(rd.Remaining()))
      case None => code == -1
      case Some((t, rest)) => code == 0 && fs.Valid() && fs.View() == t && rd.Remaining() == rest
  {
    hide rd.Valid, rd.Remaining, fs.files.Valid, fs.Valid, fs.View, TailAt, DecNames, DecSizes, DecFlags, ParseFiles;
    var ok, names := LoadNames(rd, MAX_D);
    if !ok { return -1; }
    fs.dname := names;
    var rc, flags := rd.Fill(MAX_F);
    if rc != 0 { return -1; }
    fs.fused := DecFlags(flags);
    var sizes;
    ok, sizes := LoadSizes(rd, MAX_F);
    if !ok { return -1; }
    SetSizes(fs.files, sizes);
    code := LoadFiles(rd, fs, sizes);
  }

  method SetSizes(files: FileData, sizes: seq<nat>)
    requires files.Valid() && |files.fdata| == |sizes| == MAX_F && forall j :: 0 <= j < MAX_F ==> files.fdata[j] == -1
    modifies files`fsize
    ensures files.Valid() && files.fsize == sizes
  {
    files.fsize := sizes;
  }

  /** `fs_deserialize_fill` over the windowed reader. */
  method LoadTables(rd: Reader, fs: FileSys) returns (code: int)
    requires rd.Valid() && fs.files.Valid() && rd.stage != fs.files.pool.base && fs.files.pool.base.Length > HDR
    modifies rd, rd.stage, fs, fs.files, fs.files.pool, fs.files.pool.base
    ensures rd.Valid()
    ensures match Parse(fs.files.pool.base.Length, old(rd.Remaining()))
      case None => code == -1
      case Some((t, rest)) => code == 0 && fs.Valid() && fs.View() == t && rd.Remaining() == rest
  {
    hide rd.Valid, rd.Remaining, fs.files.Valid, fs.Valid, fs.View, TailAt, ParseDirs, DecFlags;
    ghost var s := rd.Remaining();
    var rc, hdr := rd.Fill(8);
    if rc != 0 { return -1; }
    HeaderCheck(s);
    if !(hdr[0] == 84 && hdr[1] == 74 && hdr[2] == 70 && hdr[3] == 83) { return -1; }
    if hdr[4] != 4 { return -1; }
    ResetFiles(fs.files);
    var flags;
    rc, flags := rd.Fill(MAX_D);
    if rc != 0 { return -1; }
    fs.dused := DecFlags(flags);
    code := LoadDirs(rd, fs);
  }

  lemma HeaderCheck(s: seq<byte>)
    requires |s| >= 8
    ensures s[..5] == MAGIC[..5] <==> (s[0] == 84 && s[1] == 74 && s[2] == 70 && s[3] == 83 && s[4] == 4)
  {
  }

  // ------------------------------------------------------------- a full pool

  /** A file table that cannot be loaded again is reached by two allocations in an empty
      pool: the small file first, in slot 1, then the big one in slot 0. */
  method FullPoolReached(big: nat, small: nat) returns (files: FileData)
    requires 0 < small && 0 < big < MAX_FILE_DATA && BlockNeed(small) < MIN_SPLIT <= BlockNeed(big)
    ensures files.Valid() && files.pool.base.Length == BlockNeed(big) + BlockNeed(small)
    ensures forall used :: |used| == MAX_F && used[0] && used[1] ==> !Reloads(files.pool.base.Length, 0, used, files.All())
  {
    hide TailAt, NextTail, Tiling, Coalesced, Consistent, FirstBlock, NoRoom, BlockNeed, Reloads;
    var bytes := BlockNeed(big) + BlockNeed(small);
    assert bytes > HDR by { BlockNeedPositive(big); BlockNeedPositive(small); }
    var pool := new Pool(bytes);
    files := new FileData(pool);
    TableSizes(pool.header, pool.starts, files.fdata, files.fsize);
    NewTail(pool.header, pool.starts, bytes);
    TwoTails(big, small);
    PoolStep(files, 1, small, 0);
    PoolStep(files, 0, big, BlockNeed(small));
    TableSizes(pool.header, pool.starts, files.fdata, files.fsize);
    forall used | |used| == MAX_F && used[0] && used[1] ensures !Reloads(bytes, 0, used, files.All()) {
      FullPoolLost(bytes, used, files.All());
    }
  }

  lemma NewTail(header: map<nat, Header>, starts: set<nat>, bytes: nat)
    requires bytes > HDR && starts == {0} && header == map[0 := Header(bytes - HDR, true)]
    ensures TailAt(header, starts, bytes, 0)
  {
  }

  lemma TwoTails(big: nat, small: nat)
    requires BlockNeed(small) < MIN_SPLIT <= BlockNeed(big)
    ensures var bytes := BlockNeed(big) + BlockNeed(small);
      && NextTail(bytes, 0, small) == Some(BlockNeed(small)) && NextTail(bytes, BlockNeed(small), big) == Some(bytes)
      && small < MAX_FILE_DATA
  {
    hide Round4;
  }

  method PoolStep(files: FileData, i: nat, size: nat, ghost tail: nat)
    requires files.Valid() && i < MAX_F && |files.fdata| == MAX_F && files.fdata[i] == -1 && 0 < size < MAX_FILE_DATA
    requires TailAt(files.pool.header, files.pool.starts, files.pool.base.Length, tail)
    requires NextTail(files.pool.base.Length, tail, size).Some?
    modifies files, files.pool, files.pool.base
    ensures files.Valid() && |files.fdata| == MAX_F && |files.Contents(i)| == size
    ensures forall j :: 0 <= j < MAX_F && j != i ==> files.Contents(j) == old(files.Contents(j)) && files.fdata[j] == old(files.fdata[j])
    ensures TailAt(files.pool.header, files.pool.starts, files.pool.base.Length, NextTail(files.pool.base.Length, tail, size).value)
  {
    ghost var h, st := files.pool.header, files.pool.starts;
    TailRoom(h, st, files.pool.base.Length, tail, size, Round4(size + 1));
    hide Consistent, Tiling, Coalesced, TailAt, NextTail, FirstBlock, NoRoom;
    var code := files.Resize(i, size);
    TailStep(h, st, files.pool.base.Length, tail, size, files.fdata[i], files.pool.header, files.pool.starts);
  }
}
