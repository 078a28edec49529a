/** Saving the file system to the Storefile region and loading it back. */
module Store {
  import opened Words
  import opened Paths
  import opened FilePool
  import opened Files
  import opened Tree
  import opened FileSystem
  import opened Image
  import opened Disk
  import opened Load

  // ------------------------------------------------------------------ emission

  method EmitFlags(wr: Writer, used: seq<bool>)
    requires wr.Open() && wr.staged < STAGE && |wr.image| + |EncFlags(used)| <= wr.limit
    modifies wr, wr.stage, wr.drive
    ensures wr.Open() && wr.staged < STAGE && wr.image == old(wr.image) + EncFlags(used)
  {
    hide wr.Open;
    for i := 0 to |used|
      invariant wr.Open() && wr.staged < STAGE && wr.image == old(wr.image) + EncFlags(used)[..i]
    {
      wr.Sink([if used[i] then 1 as byte else 0]);
    }
  }

  method EmitNames(wr: Writer, names: seq<Text>)
    requires wr.Open() && wr.staged < STAGE && |wr.image| + |EncNames(names)| <= wr.limit
    modifies wr, wr.stage, wr.drive
    ensures wr.Open() && wr.staged < STAGE && wr.image == old(wr.image) + EncNames(names)
  {
    hide wr.Open, Pad;
    ghost var goal := old(wr.image) + EncNames(names);
    for i := 0 to |names|
      invariant wr.Open() && wr.staged < STAGE && wr.image + EncNames(names[i..]) == goal
    {
      assert names[i..][1..] == names[i + 1..];
      wr.Sink(Pad(names[i]));
    }
  }

  method EmitSizes(wr: Writer, fsize: seq<nat>, ghost data: seq<seq<byte>>)
    requires wr.Open() && wr.staged < STAGE && |wr.image| + |EncSizes(data)| <= wr.limit
    requires |fsize| == |data| && forall i :: 0 <= i < |data| ==> fsize[i] == |data[i]|
    modifies wr, wr.stage, wr.drive
    ensures wr.Open() && wr.staged < STAGE && wr.image == old(wr.image) + EncSizes(data)
  {
    hide wr.Open, Le32, Wrap32;
    ghost var goal := old(wr.image) + EncSizes(data);
    for i := 0 to |fsize|
      invariant wr.Open() && wr.staged < STAGE && wr.image + EncSizes(data[i..]) == goal
    {
      assert data[i..][1..] == data[i + 1..];
      wr.Sink(Le32(Wrap32(fsize[i])));
    }
  }

  method EmitOwners(wr: Writer, owner: seq<int>, mode: seq<int>)
    requires |owner| == |mode|
    requires wr.Open() && wr.staged < STAGE && |wr.image| + |EncOwners(owner, mode)| <= wr.limit
    modifies wr, wr.stage, wr.drive
    ensures wr.Open() && wr.staged < STAGE && wr.image == old(wr.image) + EncOwners(owner, mode)
  {
    hide wr.Open, Le32, Wrap32, Le16;
    ghost var goal := old(wr.image) + EncOwners(owner, mode);
    for i := 0 to |owner|
      invariant wr.Open() && wr.staged < STAGE && wr.image + EncOwners(owner[i..], mode[i..]) == goal
    {
      assert owner[i..][1..] == owner[i + 1..] && mode[i..][1..] == mode[i + 1..];
      wr.Sink(Le32(Wrap32(owner[i])));
      wr.Sink(Le16(mode[i] % 0x1_0000));
    }
  }

  /** The file bytes, straight from the pool, for used files with a size. */
  method EmitData(wr: Writer, fs: FileSys, ghost data: seq<seq<byte>>)
    requires fs.Valid() && wr.Open() && wr.staged < STAGE && wr.stage != fs.files.pool.base
    requires data == fs.files.All() && |wr.image| + |EncData(fs.fused, data)| <= wr.limit
    modifies wr, wr.stage, wr.drive
    ensures wr.Open() && wr.staged < STAGE && wr.image == old(wr.image) + EncData(fs.fused, data)
  {
    ghost var goal := old(wr.image) + EncData(fs.fused, data);
    assert |fs.fused| == MAX_F;
    hide wr.Open, fs.Valid, FileData.All;
    for i := 0 to MAX_F
      invariant wr.Open() && wr.staged < STAGE && wr.image + EncData(fs.fused[i..], data[i..]) == goal
    {
      EmitDataStep(wr.image, fs.fused, data, i);
      EmitFile(wr, fs, i, data);
    }
  }

  lemma EmitDataStep(image: seq<byte>, used: seq<bool>, data: seq<seq<byte>>, i: nat)
    requires i < |used| == |data|
    ensures image + EncData(used[i..], data[i..]) ==
      image + (if used[i] then data[i] else []) + EncData(used[i + 1..], data[i + 1..])
  {
  }

  method EmitFile(wr: Writer, fs: FileSys, i: nat, ghost data: seq<seq<byte>>)
    requires fs.Valid() && wr.Open() && wr.staged < STAGE && i < MAX_F && i < |fs.fused| && data == fs.files.All()
    requires |wr.image| + (if fs.fused[i] then |data[i]| else 0) <= wr.limit
    modifies wr, wr.stage, wr.drive
    ensures wr.Open() && wr.staged < STAGE && wr.image == old(wr.image) + if fs.fused[i] then data[i] else []
  {
    SlotBytes(fs, i);
    hide wr.Open, FileData.All, Consistent, Tiling, Coalesced;
    if fs.fused[i] && fs.files.fsize[i] > 0 {
      wr.Sink(fs.files.pool.base[fs.files.fdata[i]..fs.files.fdata[i] + fs.files.fsize[i]]);
    }
  }

  lemma SlotBytes(fs: FileSys, i: nat)
    requires fs.Valid() && i < MAX_F
    ensures |fs.files.All()[i]| == fs.files.fsize[i]
    ensures fs.files.fsize[i] > 0 ==>
      var p := fs.files.fdata[i];
      0 <= p && p + fs.files.fsize[i] <= fs.files.pool.base.Length &&
      fs.files.All()[i] == fs.files.pool.base[p..p + fs.files.fsize[i]]
  {
    BytesLength(fs.files.pool.header, fs.files.pool.starts, fs.files.pool.base.Length, fs.files.fdata, fs.files.fsize, i, fs.files.pool.base[..]);
    SlotFacts(fs.files.pool.header, fs.files.pool.starts, fs.files.pool.base.Length, fs.files.fdata, fs.files.fsize, i);
  }

  lemma Assoc(x: seq<byte>, a: seq<byte>, b: seq<byte>, c: seq<byte>)
    ensures x + (a + b + c) == x + a + b + c
  {
  }

  method SaveDirs(wr: Writer, ghost t: Fs, dused: seq<bool>, dname: seq<Text>)
    requires wr.Open() && wr.staged < STAGE && t.dused == dused && t.dname == dname
    requires |wr.image| + |DirImage(t)| <= wr.limit
    modifies wr, wr.stage, wr.drive
    ensures wr.Open() && wr.staged < STAGE && wr.image == old(wr.image) + DirImage(t)
  {
    Assoc(wr.image, MAGIC, EncFlags(dused), EncNames(dname));
    hide wr.Open, EncFlags, EncNames;
    wr.Sink(MAGIC);
    EmitFlags(wr, dused);
    EmitNames(wr, dname);
  }

  method SaveFileTable(wr: Writer, ghost t: Fs, fused: seq<bool>, fsize: seq<nat>, fname: seq<Text>)
    requires wr.Open() && wr.staged < STAGE && t.fused == fused && t.fname == fname
    requires |fsize| == |t.data| && forall i :: 0 <= i < |fsize| ==> fsize[i] == |t.data[i]|
    requires |wr.image| + |FileImage(t)| <= wr.limit
    modifies wr, wr.stage, wr.drive
    ensures wr.Open() && wr.staged < STAGE && wr.image == old(wr.image) + FileImage(t)
  {
    Assoc(wr.image, EncFlags(fused), EncSizes(t.data), EncNames(fname));
    hide wr.Open, EncFlags, EncNames, EncSizes;
    EmitFlags(wr, fused);
    EmitSizes(wr, fsize, t.data);
    EmitNames(wr, fname);
  }

  /** The cwd and the ownership sections. */
  method SaveOwners(wr: Writer, cwd: Text, downer: seq<int>, dmode: seq<int>, fowner: seq<int>, fmode: seq<int>)
    requires wr.Open() && wr.staged < STAGE && |downer| == |dmode| && |fowner| == |fmode|
    requires |wr.image| + |Pad(cwd) + EncOwners(downer, dmode) + EncOwners(fowner, fmode)| <= wr.limit
    modifies wr, wr.stage, wr.drive
    ensures wr.Open() && wr.staged < STAGE
    ensures wr.image == old(wr.image) + (Pad(cwd) + EncOwners(downer, dmode) + EncOwners(fowner, fmode))
  {
    Assoc(wr.image, Pad(cwd), EncOwners(downer, dmode), EncOwners(fowner, fmode));
    hide wr.Open, EncOwners, Pad;
    wr.Sink(Pad(cwd));
    EmitOwners(wr, downer, dmode);
    EmitOwners(wr, fowner, fmode);
  }

  /** `fs_serialize_sink` into the batch writer. */
  method SaveTables(wr: Writer, fs: FileSys)
    requires fs.Valid() && wr.Open() && wr.staged < STAGE && wr.stage != fs.files.pool.base
    requires |wr.image| + |Serialize(fs.View())| <= wr.limit
    modifies wr, wr.stage, wr.drive
    ensures fs.Valid() && fs.View() == old(fs.View())
    ensures wr.Open() && wr.staged < STAGE && wr.image == old(wr.image) + Serialize(fs.View())
  {
    hide wr.Open, Consistent, Tiling, Coalesced, FileData.All, DirImage, FileImage, TailImage, EncOwners, EncData, Pad;
    ghost var t := fs.View();
    forall i | 0 <= i < MAX_F ensures fs.files.fsize[i] == |t.data[i]| { SlotBytes(fs, i); }
    Assoc(wr.image, DirImage(t), FileImage(t), TailImage(t));
    TailSplit(wr.image + DirImage(t) + FileImage(t), t);
    SaveDirs(wr, t, fs.dused, fs.dname);
    SaveFileTable(wr, t, fs.fused, fs.files.fsize, fs.fname);
    EmitData(wr, fs, t.data);
    SaveOwners(wr, fs.cwd, fs.downer, fs.dmode, fs.fowner, fs.fmode);
  }

  lemma TailSplit(x: seq<byte>, t: Fs)
    requires Shape(t)
    ensures var owners := Pad(t.cwd) + EncOwners(t.downer, t.dmode) + EncOwners(t.fowner, t.fmode);
      && x + TailImage(t) == x + EncData(t.fused, t.data) + owners
      && |TailImage(t)| == |EncData(t.fused, t.data)| + |owners|
  {
    hide EncData, EncOwners, Pad;
  }

  // -------------------------------------------------------------- image sizes

  const POOL_MAX: nat := 0x300_0000 // FS_DATA_POOL_SIZE, 48 MiB
  const FIXED: nat := 42728          // everything in an image but the file bytes
  const STORE_SIZE: nat := FIXED + POOL_MAX
  const HEADER: nat := 16
  const CFG_MAX: nat := 16384        // store_cfgbuf
  const STORE_MAGIC: seq<byte> := [84, 74, 83, 49]

  lemma {:induction false} OwnersLength(owner: seq<int>, mode: seq<int>)
    requires |owner| == |mode|
    ensures |EncOwners(owner, mode)| == 6 * |owner|
    decreases |owner|
  {
    hide Le32, Le16, Wrap32;
    if owner == [] {
    } else {
      OwnersLength(owner[1..], mode[1..]);
    }
  }

  /** `fs_serialized_size` is the length of what is emitted. */
  lemma ImageLength(t: Fs)
    requires Shape(t)
    ensures |Serialize(t)| == FIXED + |EncData(t.fused, t.data)|
  {
    NamesLength(t.dname);
    NamesLength(t.fname);
    SizesLength(t.data);
    OwnersLength(t.downer, t.dmode);
    OwnersLength(t.fowner, t.fmode);
    hide EncNames, EncSizes, EncOwners, EncData, Pad;
  }

  lemma {:induction false} DataWithin(used: seq<bool>, data: seq<seq<byte>>, fdata: seq<int>, fsize: seq<nat>, i: nat)
    requires |used| == |data| == |fdata| == |fsize| && i <= |data|
    requires forall j :: 0 <= j < |data| ==> |data[j]| == if fdata[j] == -1 then 0 else fsize[j]
    ensures TotalSize(fdata, fsize, i) + |EncData(used[i..], data[i..])| <= TotalSize(fdata, fsize, |data|)
    decreases |data| - i
  {
    if i < |data| {
      assert used[i..][1..] == used[i + 1..] && data[i..][1..] == data[i + 1..];
      DataWithin(used, data, fdata, fsize, i + 1);
    }
  }

  /** In every valid state the image fits the region reserved for it. */
  lemma SavesFit(fs: FileSys)
    requires fs.Valid() && fs.files.pool.base.Length <= POOL_MAX
    ensures |Serialize(fs.View())| <= STORE_SIZE
  {
    var t := fs.View();
    var files := fs.files;
    forall j | 0 <= j < MAX_F ensures |t.data[j]| == if files.fdata[j] == -1 then 0 else files.fsize[j] { SlotBytes(fs, j); }
    ImageLength(t);
    FilesFitPool(files.pool.header, files.pool.starts, files.pool.base.Length, files.fdata, files.fsize);
    hide Serialize, EncData, TotalSize, Tiling, Consistent;
    DataWithin(t.fused, t.data, files.fdata, files.fsize, 0);
    assert t.fused[0..] == t.fused && t.data[0..] == t.data;
    TotalNothing(files.fdata, files.fsize);
  }

  lemma TotalNothing(fdata: seq<int>, fsize: seq<nat>)
    ensures TotalSize(fdata, fsize, 0) == 0
  {
  }

  /** `fs_serialized_size`. */
  method ImageSize(fs: FileSys) returns (need: nat)
    requires fs.Valid()
    ensures need == |Serialize(fs.View())|
  {
    ghost var t := fs.View();
    ImageLength(t);
    need := FIXED;
    hide Serialize, Consistent, Tiling, Coalesced;
    assert t.fused[0..] == t.fused && t.data[0..] == t.data;
    for i := 0 to MAX_F
      invariant need + |EncData(t.fused[i..], t.data[i..])| == FIXED + |EncData(t.fused, t.data)|
    {
      assert t.fused[i..][1..] == t.fused[i + 1..] && t.data[i..][1..] == t.data[i + 1..];
      SlotBytes(fs, i);
      if fs.fused[i] && fs.files.fsize[i] > 0 { need := need + fs.files.fsize[i]; }
    }
  }

  // ------------------------------------------------------------ the disk region

  const GUARD: nat := 16384   // sectors of boot image in front
  const TAIL: nat := 16       // sectors kept free at the end

  function Capacity(cfgNeed: nat): nat {
    Sectors(HEADER + STORE_SIZE + cfgNeed)
  }

  /** Where `store_init` puts the region, if anywhere; the address is cut to 32 bits. */
  function Place(sectors: nat, cfgNeed: nat): Option<nat> {
    var capacity := Capacity(cfgNeed);
    if sectors <= capacity + TAIL + 32 then None
    else
      var lba := Wrap32(sectors - capacity - TAIL);
      if lba < GUARD then None else Some(lba)
  }

  /** On every disk the region ends before the reserved tail, and right before it when the
      address was not cut. */
  lemma PlaceBounds(sectors: nat, cfgNeed: nat, lba: nat)
    requires Place(sectors, cfgNeed) == Some(lba)
    ensures GUARD <= lba && lba + Capacity(cfgNeed) <= sectors - TAIL
    ensures sectors < MOD32 ==> lba + Capacity(cfgNeed) == sectors - TAIL
  {
    hide Capacity;
    var at := sectors - Capacity(cfgNeed) - TAIL;
    assert at % 0x1_0000_0000 <= at;
    if sectors < MOD32 { WrapSelf(at); }
  }

  /** When the address needs no cut, the disks that get a region are exactly those of the
      announced smallest size: boot image, worst-case image and tail. The region ends right
      before the tail exactly on those disks. */
  lemma PlaceExact(sectors: nat, cfgNeed: nat)
    ensures 512 * (Capacity(cfgNeed) - 1) < 50_374_392 + cfgNeed <= 512 * Capacity(cfgNeed)
    ensures sectors < Capacity(cfgNeed) + 16 + 0x1_0000_0000 ==>
      (Place(sectors, cfgNeed).Some? <==> sectors >= 16384 + Capacity(cfgNeed) + 16)
    ensures Place(sectors, cfgNeed).Some? ==>
      (Place(sectors, cfgNeed).value + Capacity(cfgNeed) == sectors - 16 <==> sectors < Capacity(cfgNeed) + 16 + 0x1_0000_0000)
  {
    CapacityExact(cfgNeed);
    hide Capacity;
    var at := sectors - Capacity(cfgNeed) - TAIL;
    if 0 <= at < MOD32 { WrapSelf(at); }
  }

  lemma CapacityExact(cfgNeed: nat)
    ensures 512 * (Capacity(cfgNeed) - 1) < 50_374_392 + cfgNeed <= 512 * Capacity(cfgNeed)
  {
  }

  datatype Build = Build(lo: u32, hi: u32)

  function HeaderBytes(build: Build, payload: nat): (r: seq<byte>)
    ensures |r| == HEADER
  {
    STORE_MAGIC + Le32(Wrap32(payload)) + Le32(build.lo) + Le32(build.hi)
  }

  /** The bytes of a complete Storefile. */
  function StoreImage(build: Build, t: Fs, cfg: seq<byte>): seq<byte>
    requires Shape(t)
  {
    HeaderBytes(build, |Serialize(t)| + |cfg|) + Serialize(t) + cfg
  }

  /** Header, tables and configuration through one writer, then the last flush. */
  method StreamOut(fs: FileSys, drive: Drive, lba: nat, build: Build, cfg: seq<byte>, size: nat) returns (ok: bool)
    requires fs.Valid() && drive.Valid() && size == |Serialize(fs.View())| <= STORE_SIZE
    requires lba + Capacity(|cfg|) <= drive.sectors
    modifies drive
    ensures ok && fs.Valid() && fs.View() == old(fs.View()) && drive.Valid()
    ensures var image := StoreImage(build, fs.View(), cfg);
      lba * 512 + |image| <= |drive.bytes| && drive.bytes[lba * 512..lba * 512 + |image|] == image
    ensures KeptOutside(old(drive.writes), old(drive.bytes), drive.writes, drive.bytes, lba, HEADER + STORE_SIZE + |cfg|)
  {
    hide fs.Valid, fs.View, Serialize, HeaderBytes, Sectors, KeptOutside, drive.Valid, Writer.Open;
    var wr := new Writer(drive, lba, HEADER + STORE_SIZE + |cfg|);
    wr.Sink(HeaderBytes(build, size + |cfg|));
    SaveTables(wr, fs);
    wr.Sink(cfg);
    assert [] + HeaderBytes(build, size + |cfg|) == HeaderBytes(build, size + |cfg|);
    var rc := wr.Flush();
    ok := rc == 0 && !wr.failed;
  }

  /** The read-back of the header sector after a save. */
  method HeaderLanded(drive: Drive, lba: nat, payload: nat) returns (ok: bool)
    requires drive.Valid() && lba < drive.sectors
    ensures lba * 512 + 512 <= |drive.bytes|
    ensures ok == HeaderSays(drive.bytes[lba * 512..lba * 512 + 512], payload)
  {
    var chk := new byte[512];
    var rc := drive.Read(lba, 1, chk);
    assert chk[..512] == chk[..];
    HeaderParts(chk[..]);
    ok := rc == 0 && chk[0] == 84 && chk[1] == 74 && chk[2] == 83 && chk[3] == 49 && Un32(chk[4..8]) == payload;
  }

  ghost predicate HeaderSays(sector: seq<byte>, payload: nat) {
    |sector| >= 16 && sector[..4] == STORE_MAGIC && Un32(sector[4..8]) == payload
  }

  lemma HeaderParts(s: seq<byte>)
    requires |s| >= 16
    ensures s[..4] == STORE_MAGIC <==> (s[0] == 84 && s[1] == 74 && s[2] == 83 && s[3] == 49)
  {
  }

  /** `store_autosave`: the size guard, the stream, the final flush and the check of the
      header on disk. The guard never fires and every write stays in the region. */
  method AutoSave(fs: FileSys, drive: Drive, lba: nat, build: Build, cfg: seq<byte>) returns (enabled: bool)
    requires fs.Valid() && fs.files.pool.base.Length <= POOL_MAX && drive.Valid() && |cfg| <= CFG_MAX
    requires Place(drive.sectors, |cfg|) == Some(lba)
    modifies drive
    ensures fs.Valid() && fs.View() == old(fs.View()) && drive.Valid()
    ensures enabled
    ensures var image := StoreImage(build, fs.View(), cfg);
      lba * 512 + |image| <= |drive.bytes| && drive.bytes[lba * 512..lba * 512 + |image|] == image
    ensures KeptOutside(old(drive.writes), old(drive.bytes), drive.writes, drive.bytes, lba, HEADER + STORE_SIZE + |cfg|)
  {
    hide fs.Valid, fs.View, Serialize, KeptOutside, Place;
    PlaceBounds(drive.sectors, |cfg|, lba);
    SavesFit(fs);
    var size := ImageSize(fs);
    var payload := size + |cfg|;
    var sectors := Sectors(HEADER + payload);
    var capacity := Capacity(|cfg|);
    if size > STORE_SIZE || payload > capacity * 512 - HEADER || sectors > capacity { return true; }
    var ok := StreamOut(fs, drive, lba, build, cfg, size);
    if !ok { return true; }
    HeaderOnDisk(build, fs.View(), cfg, drive.bytes, lba);
    enabled := HeaderLanded(drive, lba, payload);
  }

  /** The fields of the header, read back. */
  lemma HeaderFields(build: Build, payload: u32, s: seq<byte>)
    requires |s| >= HEADER && s[..HEADER] == HeaderBytes(build, payload)
    ensures s[..4] == STORE_MAGIC && Un32(s[4..8]) == payload && Un32(s[8..12]) == build.lo && Un32(s[12..16]) == build.hi
  {
    Un32Le32(payload);
    Un32Le32(build.lo);
    Un32Le32(build.hi);
    WrapSelf(payload);
    var h := HeaderBytes(build, payload);
    assert |Le32(Wrap32(payload))| == |Le32(build.lo)| == |Le32(build.hi)| == 4;
    hide Le32, Un32, Wrap32;
    assert h[..4] == STORE_MAGIC && h[4..8] == Le32(payload) && h[8..12] == Le32(build.lo) && h[12..16] == Le32(build.hi);
    assert s[..4] == s[..HEADER][..4] && s[4..8] == s[..HEADER][4..8] && s[8..12] == s[..HEADER][8..12] && s[12..16] == s[..HEADER][12..16];
  }

  lemma HeaderSector(image: seq<byte>, bytes: seq<byte>, at: nat)
    requires HEADER <= |image| && at + |image| <= |bytes| && at + 512 <= |bytes|
    requires bytes[at..at + |image|] == image
    ensures bytes[at..at + 512][..HEADER] == image[..HEADER]
  {
  }

  lemma HeaderOnDisk(build: Build, t: Fs, cfg: seq<byte>, bytes: seq<byte>, lba: nat)
    requires Shape(t) && |Serialize(t)| <= STORE_SIZE && |cfg| <= CFG_MAX
    requires lba * 512 + |StoreImage(build, t, cfg)| <= |bytes| && lba * 512 + 512 <= |bytes|
    requires bytes[lba * 512..lba * 512 + |StoreImage(build, t, cfg)|] == StoreImage(build, t, cfg)
    ensures HeaderSays(bytes[lba * 512..lba * 512 + 512], |Serialize(t)| + |cfg|)
    ensures var s := bytes[lba * 512..lba * 512 + 512]; Un32(s[8..12]) == build.lo && Un32(s[12..16]) == build.hi
  {
    hide Serialize, HeaderBytes, Un32;
    var payload := |Serialize(t)| + |cfg|;
    var image := StoreImage(build, t, cfg);
    HeaderSector(image, bytes, lba * 512);
    assert image[..HEADER] == HeaderBytes(build, payload);
    HeaderFields(build, payload, bytes[lba * 512..lba * 512 + 512]);
  }

  /** The region lies behind the boot image and in front of the reserved tail: no
      write of a save touches either. */
  lemma RegionBounds(sectors: nat, cfgNeed: nat, lba: nat, w: seq<Extent>, b: seq<byte>, w': seq<Extent>, b': seq<byte>)
    requires Place(sectors, cfgNeed) == Some(lba)
    requires KeptOutside(w, b, w', b', lba, HEADER + STORE_SIZE + cfgNeed)
    ensures forall i :: |w| <= i < |w'| ==> GUARD <= w'[i].lba && w'[i].lba + w'[i].count <= sectors - TAIL
    ensures |b| >= GUARD * 512 && b'[..GUARD * 512] == b[..GUARD * 512]
  {
    PlaceBounds(sectors, cfgNeed, lba);
    hide Place;
    assert b'[..GUARD * 512] == b'[..lba * 512][..GUARD * 512];
  }

  // -------------------------------------------------------------------- booting

  /** The payload length a header sector announces, when it is acceptable. */
  function BootPayload(s: seq<byte>, build: Build, cfgNeed: nat): (r: Option<nat>)
    requires |s| == 512
    ensures r.Some? ==> 8 + cfgNeed <= r.value <= STORE_SIZE + cfgNeed
  {
    if s[..4] != STORE_MAGIC || Un32(s[8..12]) != build.lo || Un32(s[12..16]) != build.hi then None
    else if Un32(s[4..8]) < 8 + cfgNeed || Un32(s[4..8]) > STORE_SIZE + cfgNeed then None
    else Some(Un32(s[4..8]))
  }

  /** What `store_init` finds in the region: the tables and the configuration bytes. */
  function BootState(disk: seq<byte>, lba: nat, pool: nat, build: Build, cfgNeed: nat): Option<(Fs, seq<byte>)>
    requires (lba + Capacity(cfgNeed)) * 512 <= |disk|
  {
    match BootPayload(disk[lba * 512..lba * 512 + 512], build, cfgNeed)
    case None => None
    case Some(payload) =>
      match Parse(pool, disk[lba * 512 + HEADER..lba * 512 + HEADER + payload])
      case None => None
      case Some((t, rest)) => if |rest| < cfgNeed then None else Some((t, rest[..cfgNeed]))
  }

  /** The boot path of `store_init`, up to the configuration bytes. */
  method Boot(fs: FileSys, drive: Drive, lba: nat, build: Build, cfgNeed: nat) returns (ok: bool, cfg: seq<byte>)
    requires fs.files.Valid() && fs.files.pool.base.Length > HDR && drive.Valid()
    requires lba + Capacity(cfgNeed) <= drive.sectors
    modifies fs, fs.files, fs.files.pool, fs.files.pool.base
    ensures match BootState(drive.bytes, lba, fs.files.pool.base.Length, build, cfgNeed)
      case None => !ok
      case Some((t, c)) => ok && fs.Valid() && fs.View() == t && cfg == c
  {
    hide fs.files.Valid, fs.Valid, fs.View, Parse, Un32;
    cfg := [];
    var sector := new byte[512];
    var rc := drive.Read(lba, 1, sector);
    assert sector[..512] == sector[..];
    HeaderParts(sector[..]);
    if !(rc == 0 && sector[0] == 84 && sector[1] == 74 && sector[2] == 83 && sector[3] == 49) { return false, cfg; }
    if !(Un32(sector[8..12]) == build.lo && Un32(sector[12..16]) == build.hi) { return false, cfg; }
    var payload := Un32(sector[4..8]);
    if payload < 8 + cfgNeed || payload > STORE_SIZE + cfgNeed { return false, cfg; }
    if Sectors(HEADER + payload) > Capacity(cfgNeed) { return false, cfg; }
    ok, cfg := BootTables(fs, drive, lba, payload, cfgNeed);
  }

  method BootTables(fs: FileSys, drive: Drive, lba: nat, payload: nat, cfgNeed: nat) returns (ok: bool, cfg: seq<byte>)
    requires fs.files.Valid() && fs.files.pool.base.Length > HDR && drive.Valid()
    requires lba + Sectors(HEADER + payload) <= drive.sectors
    modifies fs, fs.files, fs.files.pool, fs.files.pool.base
    ensures lba * 512 + HEADER + payload <= |drive.bytes|
    ensures match Parse(fs.files.pool.base.Length, drive.bytes[lba * 512 + HEADER..lba * 512 + HEADER + payload])
      case None => !ok
      case Some((t, rest)) => (ok <==> cfgNeed <= |rest|) && (ok ==> fs.Valid() && fs.View() == t && cfg == rest[..cfgNeed])
  {
    hide fs.files.Valid, fs.Valid, fs.View, Parse, Reader.Valid;
    cfg := [];
    var rd := new Reader(drive, lba, HEADER, HEADER + payload);
    assert rd.Remaining() == drive.bytes[lba * 512 + HEADER..lba * 512 + HEADER + payload];
    hide rd.Remaining;
    var code := LoadTables(rd, fs);
    if code != 0 { return false, cfg; }
    var rc;
    rc, cfg := rd.Fill(cfgNeed);
    ok := rc == 0;
  }

  /** What the first bytes of the region must say for it to be loaded: the four letters
      TJS1, the identification of this kernel build, and a length within the limits. */
  ghost predicate Marked(disk: seq<byte>, at: nat, build: Build, cfgNeed: nat)
    requires at + 16 <= |disk|
  {
    && disk[at] == 84 && disk[at + 1] == 74 && disk[at + 2] == 83 && disk[at + 3] == 49
    && WordAt(disk, at + 8) == build.lo && WordAt(disk, at + 12) == build.hi
    && 8 + cfgNeed <= WordAt(disk, at + 4) <= 50_374_376 + cfgNeed
  }

  lemma MarkedSector(disk: seq<byte>, at: nat, build: Build, cfgNeed: nat)
    requires at + 512 <= |disk|
    ensures BootPayload(disk[at..at + 512], build, cfgNeed) ==
      if Marked(disk, at, build, cfgNeed) then Some(WordAt(disk, at + 4)) else None
  {
    var s := disk[at..at + 512];
    HeaderParts(s);
    WordOf(disk, at, 4);
    WordOf(disk, at, 8);
    WordOf(disk, at, 12);
    hide WordAt, Un32;
  }

  lemma WordOf(disk: seq<byte>, at: nat, i: nat)
    requires at + 512 <= |disk| && i + 4 <= 512
    ensures Un32(disk[at..at + 512][i..i + 4]) == WordAt(disk, at + i)
  {
    var s := disk[at..at + 512][i..i + 4];
    assert s[0] == disk[at + i] && s[1] == disk[at + i + 1] && s[2] == disk[at + i + 2] && s[3] == disk[at + i + 3];
  }

  /** Booting takes the saved state exactly when the region is marked and the announced
      bytes are tables followed by the whole configuration; then it takes just these. */
  lemma BootExact(disk: seq<byte>, lba: nat, pool: nat, build: Build, cfgNeed: nat)
    requires (lba + Capacity(cfgNeed)) * 512 <= |disk|
    ensures var at := lba * 512;
      && at + 16 <= |disk|
      && (!Marked(disk, at, build, cfgNeed) ==> BootState(disk, lba, pool, build, cfgNeed) == None)
      && (Marked(disk, at, build, cfgNeed) ==>
            && at + 16 + WordAt(disk, at + 4) <= |disk|
            && BootState(disk, lba, pool, build, cfgNeed) ==
                 match Parse(pool, disk[at + 16..at + 16 + WordAt(disk, at + 4)])
                 case None => None
                 case Some((t, rest)) => if cfgNeed <= |rest| then Some((t, rest[..cfgNeed])) else None)
  {
    hide Parse, WordAt, BootPayload;
    MarkedSector(disk, lba * 512, build, cfgNeed);
  }

  /** A Storefile of another build is refused, whatever the rest of it holds. */
  lemma OtherBuildRefused(disk: seq<byte>, lba: nat, pool: nat, build: Build, other: Build, t: Fs, cfg: seq<byte>)
    requires Shape(t) && |Serialize(t)| <= STORE_SIZE && |cfg| <= CFG_MAX && other != build
    requires (lba + Capacity(|cfg|)) * 512 <= |disk| && lba * 512 + |StoreImage(build, t, cfg)| <= |disk|
    requires disk[lba * 512..lba * 512 + |StoreImage(build, t, cfg)|] == StoreImage(build, t, cfg)
    ensures BootState(disk, lba, pool, other, |cfg|) == None
  {
    hide Serialize, HeaderBytes, Un32, Parse, WordAt, StoreImage;
    HeaderOnDisk(build, t, cfg, disk, lba);
    WordOf(disk, lba * 512, 8);
    WordOf(disk, lba * 512, 12);
    BootExact(disk, lba, pool, other, |cfg|);
  }

  /** The Storefile round trip over the disk: booting from a saved image gives the
      saved tables and configuration exactly when the files fit a fresh pool in slot
      order; otherwise the image is refused. */
  lemma SavedBoots(disk: seq<byte>, lba: nat, pool: nat, build: Build, t: Fs, cfg: seq<byte>)
    requires Storable(t) && |Serialize(t)| <= STORE_SIZE && |cfg| <= CFG_MAX
    requires (lba + Capacity(|cfg|)) * 512 <= |disk| && lba * 512 + |StoreImage(build, t, cfg)| <= |disk|
    requires disk[lba * 512..lba * 512 + |StoreImage(build, t, cfg)|] == StoreImage(build, t, cfg)
    ensures BootState(disk, lba, pool, build, |cfg|) ==
      if Reloads(pool, 0, t.fused, t.data) then Some((t, cfg)) else None
  {
    hide Serialize, HeaderBytes, Un32, Parse, GoodNames, GoodOwners, Reloads, BootPayload;
    HeaderAccepted(disk, lba, build, t, cfg);
    PayloadOnDisk(HeaderBytes(build, |Serialize(t)| + |cfg|), Serialize(t), cfg, disk, lba * 512);
    ParseSerialize(pool, t, cfg);
    assert cfg[..|cfg|] == cfg;
  }

  lemma HeaderAccepted(disk: seq<byte>, lba: nat, build: Build, t: Fs, cfg: seq<byte>)
    requires Shape(t) && |Serialize(t)| <= STORE_SIZE && |cfg| <= CFG_MAX
    requires lba * 512 + 512 <= |disk| && lba * 512 + |StoreImage(build, t, cfg)| <= |disk|
    requires disk[lba * 512..lba * 512 + |StoreImage(build, t, cfg)|] == StoreImage(build, t, cfg)
    ensures BootPayload(disk[lba * 512..lba * 512 + 512], build, |cfg|) == Some(|Serialize(t)| + |cfg|)
  {
    hide Serialize, HeaderBytes, Un32, StoreImage;
    ImageLength(t);
    HeaderOnDisk(build, t, cfg, disk, lba);
  }

  lemma PayloadOnDisk(header: seq<byte>, tables: seq<byte>, cfg: seq<byte>, disk: seq<byte>, at: nat)
    requires |header| == HEADER && at + |header + tables + cfg| <= |disk|
    requires disk[at..at + |header + tables + cfg|] == header + tables + cfg
    ensures disk[at + HEADER..at + HEADER + (|tables| + |cfg|)] == tables + cfg
  {
    SubSlice(disk, at, |header + tables + cfg|, HEADER, |tables| + |cfg|);
    assert (header + tables + cfg)[HEADER..] == tables + cfg;
  }

  /** Saving one system and booting another from the same disk. */
  method SaveAndBoot(fs: FileSys, next: FileSys, drive: Drive, lba: nat, build: Build, cfg: seq<byte>) returns (ok: bool, got: seq<byte>)
    requires fs.Valid() && fs.files.pool.base.Length <= POOL_MAX && Storable(fs.View()) && drive.Valid() && |cfg| <= CFG_MAX
    requires Place(drive.sectors, |cfg|) == Some(lba)
    requires next.files.Valid() && next.files.pool.base.Length > HDR
    requires {fs, fs.files, fs.files.pool, fs.files.pool.base} !! {next, next.files, next.files.pool, next.files.pool.base}
    modifies drive, next, next.files, next.files.pool, next.files.pool.base
    ensures var t := old(fs.View());
      && (ok <==> Reloads(next.files.pool.base.Length, 0, t.fused, t.data))
      && (ok ==> next.Valid() && next.View() == t && got == cfg)
  {
    ghost var t := fs.View();
    SavesFit(fs);
    PlaceBounds(drive.sectors, |cfg|, lba);
    hide Place, fs.Valid, fs.View, fs.files.Valid, Serialize, KeptOutside, BootState, Storable, Reloads, StoreImage;
    var enabled := AutoSave(fs, drive, lba, build, cfg);
    SavedBoots(drive.bytes, lba, next.files.pool.base.Length, build, t, cfg);
    ok, got := Boot(next, drive, lba, build, |cfg|);
  }
}
