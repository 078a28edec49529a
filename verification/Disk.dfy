/** The disk and the two streaming contexts of the Storefile: image bytes leave and
    arrive through a 64 KiB window of whole sectors. */
module Disk {
  import opened Words

  const STAGE: nat := 65536

  function Sectors(bytes: nat): nat {
    (bytes + 511) / 512
  }

  lemma SpliceTwice(d: seq<byte>, at: nat, a: seq<byte>, b: seq<byte>)
    requires at + |a| + |b| <= |d|
    ensures Splice(Splice(d, at, a), at + |a|, b) == Splice(d, at, a + b)
  {
  }

  lemma TailAppend(s: seq<byte>, from: nat, t: seq<byte>)
    requires from <= |s|
    ensures (s + t)[from..] == s[from..] + t
    ensures (s + t)[..from] == s[..from]
  {
  }

  lemma SubSlice(s: seq<byte>, a: nat, n: nat, i: nat, k: nat)
    requires a + n <= |s| && i + k <= n
    ensures s[a..a + n][i..i + k] == s[a + i..a + i + k]
  {
    var l, r := s[a..a + n][i..i + k], s[a + i..a + i + k];
    forall j | 0 <= j < k ensures l[j] == r[j] {
      assert s[a..a + n][i + j] == s[a + (i + j)];
    }
  }

  /** Bytes taken from the window are the next bytes of the image. */
  lemma WindowStep(stage: seq<byte>, d: seq<byte>, winAt: nat, winLen: nat, at: nat, take: nat, end: nat)
    requires winLen <= |stage| && winAt + winLen <= |d| && stage[..winLen] == d[winAt..winAt + winLen]
    requires at + take <= winLen && winAt + at + take <= end <= |d|
    ensures stage[at..at + take] + d[winAt + at + take..end] == d[winAt + at..end]
  {
    SubSlice(stage, 0, winLen, at, take);
    SubSlice(d, winAt, winLen, at, take);
    SplitSlice(d, winAt + at, take, end - winAt - at);
  }

  lemma SplitSlice(s: seq<byte>, a: nat, k: nat, n: nat)
    requires a + n <= |s| && k <= n
    ensures s[a..a + k] + s[a + k..a + n] == s[a..a + n]
  {
  }

  /** A run of sectors handed to one write command. */
  datatype Extent = Extent(lba: nat, count: nat)

  ghost predicate Inside(writes: seq<Extent>, from: nat, lo: nat, hi: nat) {
    forall i :: from <= i < |writes| ==> lo <= writes[i].lba && writes[i].lba + writes[i].count <= hi
  }

  class Drive {
    const sectors: nat
    var bytes: seq<byte>
    ghost var writes: seq<Extent>

    constructor (sectors: nat, bytes: seq<byte>)
      requires |bytes| == sectors * 512
      ensures Valid() && this.sectors == sectors && this.bytes == bytes && writes == []
    {
      this.sectors := sectors;
      this.bytes := bytes;
      writes := [];
    }

    ghost predicate Valid()
      reads this
    {
      |bytes| == sectors * 512
    }

    /** `store_backend_write`: commands of at most 255 sectors. */
    method Write(lba: nat, count: nat, buf: seq<byte>) returns (rc: int)
      requires Valid() && |buf| == count * 512
      modifies this
      ensures Valid()
      ensures rc == if count == 0 || lba + count > sectors then -1 else 0
      ensures rc != 0 ==> bytes == old(bytes) && writes == old(writes)
      ensures rc == 0 ==> lba * 512 + |buf| <= |old(bytes)| && bytes == Splice(old(bytes), lba * 512, buf)
      ensures |old(writes)| <= |writes| && writes[..|old(writes)|] == old(writes)
      ensures Inside(writes, |old(writes)|, lba, lba + count)
    {
      if count == 0 || lba + count > sectors { return -1; }
      var at: nat, left: nat := lba, count;
      while left > 0
        invariant Valid() && lba <= at && at + left == lba + count
        invariant lba + count <= sectors && |old(bytes)| == sectors * 512
        invariant bytes == Splice(old(bytes), lba * 512, buf[..(at - lba) * 512])
        invariant |old(writes)| <= |writes| && writes[..|old(writes)|] == old(writes)
        invariant Inside(writes, |old(writes)|, lba, lba + count)
      {
        var chunk := if left > 255 then 255 else left;
        ghost var done := (at - lba) * 512;
        SpliceTwice(old(bytes), lba * 512, buf[..done], buf[done..done + chunk * 512]);
        assert buf[..done] + buf[done..done + chunk * 512] == buf[..done + chunk * 512];
        bytes := Splice(bytes, at * 512, buf[(at - lba) * 512..(at - lba) * 512 + chunk * 512]);
        writes := writes + [Extent(at, chunk)];
        at, left := at + chunk, left - chunk;
      }
      assert buf[..|buf|] == buf;
      return 0;
    }

    /** `store_backend_read`, in chunks of at most 255 sectors. */
    method Read(lba: nat, count: nat, buf: array<byte>) returns (rc: int)
      requires Valid() && count * 512 <= buf.Length
      modifies buf
      ensures rc == if count == 0 || lba + count > sectors then -1 else 0
      ensures rc == 0 ==> lba * 512 + count * 512 <= |bytes| && buf[..count * 512] == bytes[lba * 512..lba * 512 + count * 512]
    {
      if count == 0 || lba + count > sectors { return -1; }
      var at: nat, left: nat := lba, count;
      while left > 0
        invariant lba <= at && at + left == lba + count
        invariant lba + count <= sectors
        invariant buf[..(at - lba) * 512] == bytes[lba * 512..at * 512]
      {
        var chunk := if left > 255 then 255 else left;
        ReadCommand(at, chunk, buf, (at - lba) * 512);
        SplitSlice(bytes, lba * 512, (at - lba) * 512, (at - lba + chunk) * 512);
        at, left := at + chunk, left - chunk;
      }
      return 0;
    }

    method ReadCommand(lba: nat, count: nat, buf: array<byte>, to: nat)
      requires Valid() && lba + count <= sectors && to + count * 512 <= buf.Length
      modifies buf
      ensures buf[..to + count * 512] == old(buf[..to]) + bytes[lba * 512..(lba + count) * 512]
    {
      for k := 0 to count * 512
        invariant buf[..to] == old(buf[..to])
        invariant buf[to..to + k] == bytes[lba * 512..lba * 512 + k]
      {
        buf[to + k] := bytes[lba * 512 + k];
        assert buf[to..to + k + 1] == buf[to..to + k] + [buf[to + k]];
      }
    }
  }

  /** The staged tail of the image lands right behind what is already on disk. */
  lemma FlushLands(d: seq<byte>, base: nat, image: seq<byte>, done: nat, buf: seq<byte>)
    requires done <= |image| <= done + |buf| && base + done + |buf| <= |d|
    requires d[base..base + done] == image[..done] && buf[..|image| - done] == image[done..]
    ensures Splice(d, base + done, buf)[base..base + |image|] == image
    ensures Splice(d, base + done, buf)[..base] == d[..base]
  {
    var r := Splice(d, base + done, buf);
    assert r[base..base + done] == image[..done];
    assert r[base + done..base + |image|] == image[done..];
    assert r[base..base + |image|] == r[base..base + done] + r[base + done..base + |image|];
  }

  // -------------------------------------------------------------- batch writer

  /** `store_wr_ctx` over its staging buffer. */
  class Writer {
    const drive: Drive
    const lba: nat
    const stage: array<byte>
    var imgOff: nat
    var staged: nat
    var startOff: nat
    var failed: bool
    /** Everything received so far. */
    ghost var image: seq<byte>
    ghost const limit: nat
    /** The disk as it was before this writer. */
    ghost const writes0: seq<Extent>
    ghost const bytes0: seq<byte>

    ghost predicate Open()
      reads this, drive, stage
    {
      && drive.Valid() && stage.Length == STAGE
      && lba + Sectors(limit) <= drive.sectors
      && imgOff == |image| <= limit
      && staged <= STAGE && staged <= imgOff && (imgOff - staged) % 0x1_0000 == 0
      && (staged > 0 ==> startOff == imgOff - staged)
      && stage[..staged] == image[imgOff - staged..]
      && !failed
      && lba * 512 + imgOff - staged <= |drive.bytes|
      && drive.bytes[lba * 512..lba * 512 + (imgOff - staged)] == image[..imgOff - staged]
      && KeptOutside(writes0, bytes0, drive.writes, drive.bytes, lba, limit)
    }

    constructor (drive: Drive, lba: nat, ghost limit: nat)
      requires drive.Valid() && lba + Sectors(limit) <= drive.sectors
      ensures Open() && staged == 0 && image == [] && this.drive == drive && this.lba == lba && this.limit == limit && fresh(stage)
      ensures writes0 == drive.writes && bytes0 == drive.bytes
    {
      this.drive, this.lba, this.limit := drive, lba, limit;
      writes0, bytes0 := drive.writes, drive.bytes;
      imgOff, staged, startOff, failed := 0, 0, 0, false;
      image := [];
      stage := new byte[STAGE];
    }

    /** `store_wr_flush`: the staged bytes, zero-padded to whole sectors. */
    method Flush() returns (rc: int)
      requires Open()
      modifies this`staged, this`failed, stage, drive
      ensures rc == 0 && staged == 0 && !failed && drive.Valid()
      ensures lba * 512 + |image| <= |drive.bytes| && drive.bytes[lba * 512..lba * 512 + |image|] == image
      ensures KeptOutside(writes0, bytes0, drive.writes, drive.bytes, lba, limit)
    {
      if staged == 0 {
        assert image[..|image|] == image;
        return 0;
      }
      rc := FlushBatch();
    }

    method FlushBatch() returns (rc: int)
      requires Open() && staged > 0
      modifies this`staged, this`failed, stage, drive
      ensures rc == 0 && staged == 0 && !failed && drive.Valid()
      ensures lba * 512 + |image| <= |drive.bytes| && drive.bytes[lba * 512..lba * 512 + |image|] == image
      ensures KeptOutside(writes0, bytes0, drive.writes, drive.bytes, lba, limit)
    {
      BatchFits(limit, startOff, staged);
      hide Splice, Sectors, Inside, KeptOutside;
      var secs := PadSectors();
      assert stage[..secs * 512][..staged] == image[startOff..];
      WriteBatch(secs);
      InsideWiden(drive.writes, |old(drive.writes)|, lba + startOff / 512, lba + startOff / 512 + secs, lba, lba + Sectors(limit));
      KeptMore(writes0, bytes0, old(drive.writes), old(drive.bytes), drive.writes, drive.bytes, lba, limit);
      staged := 0;
      rc := 0;
    }

    /** The write of one padded batch. It lies inside the disk, so it succeeds. */
    method WriteBatch(secs: nat)
      requires drive.Valid() && stage.Length == STAGE && 0 < secs && secs * 512 <= STAGE
      requires startOff % 512 == 0 && lba + startOff / 512 + secs <= drive.sectors
      requires startOff <= |image| <= startOff + secs * 512 && stage[..secs * 512][..|image| - startOff] == image[startOff..]
      requires drive.bytes[lba * 512..lba * 512 + startOff] == image[..startOff]
      modifies this`failed, drive
      ensures drive.Valid() && failed == old(failed)
      ensures lba * 512 + |image| <= |drive.bytes| && drive.bytes[lba * 512..lba * 512 + |image|] == image
      ensures |old(drive.writes)| <= |drive.writes| && drive.writes[..|old(drive.writes)|] == old(drive.writes)
      ensures Inside(drive.writes, |old(drive.writes)|, lba + startOff / 512, lba + startOff / 512 + secs)
      ensures drive.bytes[..lba * 512] == old(drive.bytes[..lba * 512])
    {
      hide Splice, Inside;
      FlushLands(drive.bytes, lba * 512, image, startOff, stage[..secs * 512]);
      var rc := drive.Write(lba + startOff / 512, secs, stage[..secs * 512]);
      failed := failed || rc != 0;
    }

    /** Zeroes behind the staged bytes up to a whole number of sectors. */
    method PadSectors() returns (secs: nat)
      requires stage.Length == STAGE && staged <= STAGE
      modifies stage
      ensures secs == (staged + 511) / 512 && secs * 512 <= STAGE
      ensures stage[..staged] == old(stage[..staged])
      ensures forall k :: staged <= k < secs * 512 ==> stage[k] == 0
    {
      secs := (staged + 511) / 512;
      var pad := secs * 512 - staged;
      while pad > 0
        invariant 0 <= pad <= secs * 512 - staged
        invariant stage[..staged] == old(stage[..staged])
        invariant forall k :: staged + pad <= k < secs * 512 ==> stage[k] == 0
      {
        pad := pad - 1;
        stage[staged + pad] := 0;
      }
    }

    /** One turn of the staging loop: copy as much as the batch still takes. */
    method Stage(data: seq<byte>) returns (take: nat)
      requires Open() && staged < STAGE && data != [] && |image| + |data| <= limit
      modifies this`imgOff, this`staged, this`startOff, this`image, stage
      ensures Open() && 0 < take <= |data| && image == old(image) + data[..take]
    {
      if staged == 0 { startOff := imgOff; }
      take := STAGE - staged;
      if take > |data| { take := |data|; }
      CopyIn(data, take);
      TailAppend(image, imgOff - staged, data[..take]);
      staged, imgOff := staged + take, imgOff + take;
      image := image + data[..take];
    }

    method CopyIn(data: seq<byte>, take: nat)
      requires take <= |data| && staged + take <= stage.Length
      modifies stage
      ensures stage[..staged + take] == old(stage[..staged]) + data[..take]
    {
      for k := 0 to take
        invariant stage[..staged + k] == old(stage[..staged]) + data[..k]
      {
        stage[staged + k] := data[k];
        assert stage[..staged + k + 1] == stage[..staged + k] + [data[k]];
      }
    }

    /** `store_wr_sink`. */
    method Sink(data: seq<byte>)
      requires Open() && staged < STAGE && |image| + |data| <= limit
      modifies this`imgOff, this`staged, this`startOff, this`failed, this`image, stage, drive
      ensures Open() && staged < STAGE && image == old(image) + data
    {
      hide KeptOutside, Sectors;
      var off := 0;
      while off < |data|
        invariant off <= |data| && Open() && staged < STAGE && image == old(image) + data[..off]
      {
        var take := Stage(data[off..]);
        assert data[..off] + data[off..][..take] == data[..off + take];
        off := off + take;
        if staged == STAGE {
          assert (imgOff - 0x1_0000) % 0x1_0000 == 0;
          var _ := Flush();
          assert image[..imgOff] == image && image[imgOff..] == [] && stage[..0] == [];
        }
      }
    }
  }

  /** What a writer leaves alone: the earlier log and everything before its region;
      its own commands stay inside the region. */
  ghost predicate KeptOutside(writes: seq<Extent>, bytes: seq<byte>, writes': seq<Extent>, bytes': seq<byte>, lba: nat, limit: nat) {
    && |writes| <= |writes'| && writes'[..|writes|] == writes
    && Inside(writes', |writes|, lba, lba + Sectors(limit))
    && |bytes'| == |bytes| && lba * 512 <= |bytes| && bytes'[..lba * 512] == bytes[..lba * 512]
  }

  lemma KeptMore(w0: seq<Extent>, b0: seq<byte>, w1: seq<Extent>, b1: seq<byte>, w2: seq<Extent>, b2: seq<byte>, lba: nat, limit: nat)
    requires KeptOutside(w0, b0, w1, b1, lba, limit)
    requires |w1| <= |w2| && w2[..|w1|] == w1 && Inside(w2, |w1|, lba, lba + Sectors(limit))
    requires |b2| == |b1| && b2[..lba * 512] == b1[..lba * 512]
    ensures KeptOutside(w0, b0, w2, b2, lba, limit)
  {
  }

  lemma InsideWiden(writes: seq<Extent>, from: nat, lo: nat, hi: nat, lo': nat, hi': nat)
    requires Inside(writes, from, lo, hi) && lo' <= lo && hi <= hi'
    ensures Inside(writes, from, lo', hi')
  {
  }

  lemma BatchFits(limit: nat, done: nat, staged: nat)
    requires done % 0x1_0000 == 0 && done + staged <= limit
    ensures done % 512 == 0 && done / 512 + (staged + 511) / 512 <= Sectors(limit)
  {
  }

  // ---------------------------------------------------------------- window reader

  /** `store_rd_ctx`: sequential bytes of the image that starts at sector `lba`. */
  class Reader {
    const drive: Drive
    const lba: nat
    const stage: array<byte>
    var imgOff: nat
    const imgEnd: nat
    var winOff: nat
    var winLen: nat

    ghost predicate Valid()
      reads this, drive, stage
    {
      && drive.Valid() && stage.Length == STAGE
      && imgOff <= imgEnd && lba + Sectors(imgEnd) <= drive.sectors
      && winLen <= STAGE
      && (winLen > 0 ==>
            && winOff <= imgOff
            && lba * 512 + winOff + winLen <= |drive.bytes|
            && stage[..winLen] == drive.bytes[lba * 512 + winOff..lba * 512 + winOff + winLen])
    }

    /** The bytes not delivered yet. */
    ghost function Remaining(): (r: seq<byte>)
      requires Valid()
      reads this, drive, stage
      ensures |r| == imgEnd - imgOff
    {
      drive.bytes[lba * 512 + imgOff..lba * 512 + imgEnd]
    }

    constructor (drive: Drive, lba: nat, imgOff: nat, imgEnd: nat)
      requires drive.Valid() && imgOff <= imgEnd && lba + Sectors(imgEnd) <= drive.sectors
      ensures Valid() && this.drive == drive && this.lba == lba && this.imgOff == imgOff && this.imgEnd == imgEnd && fresh(stage)
    {
      this.drive, this.lba, this.imgOff, this.imgEnd := drive, lba, imgOff, imgEnd;
      winOff, winLen := 0, 0;
      stage := new byte[STAGE];
    }

    /** The refill of the window around the next byte. */
    method Refill()
      requires Valid() && imgOff < imgEnd
      modifies this`winOff, this`winLen, stage
      ensures Valid() && winOff <= imgOff < winOff + winLen
    {
      var sec := imgOff / 512;
      var maxSecs := (imgEnd - sec * 512 + 511) / 512;
      var n := if maxSecs < 128 then maxSecs else 128;
      if n < 1 { n := 1; }
      var rc := drive.Read(lba + sec, n, stage);
      winOff, winLen := sec * 512, n * 512;
    }

    /** `store_rd_fill`: exactly `len` bytes, or nothing past the end of the image. */
    method Fill(len: nat) returns (rc: int, dst: seq<byte>)
      requires Valid()
      modifies this`imgOff, this`winOff, this`winLen, stage
      ensures Valid()
      ensures rc == if len <= |old(Remaining())| then 0 else -1
      ensures rc == 0 ==> dst == old(Remaining())[..len] && Remaining() == old(Remaining())[len..]
      ensures rc != 0 ==> Remaining() == old(Remaining())
    {
      hide Sectors, Valid, Remaining;
      dst := [];
      var left: nat := len;
      while left > 0
        invariant Valid() && left + |dst| == len
        invariant dst + Remaining() == old(Remaining())
        invariant |dst| > 0 ==> imgOff + left <= imgEnd
        invariant imgOff == old(imgOff) + |dst|
      {
        if imgOff + left > imgEnd {
          assert dst == [];
          return -1, dst;
        }
        var piece := Piece(left);
        dst := dst + piece;
        left := left - |piece|;
      }
      rc := 0;
    }

    /** One turn of the delivery loop: refill when needed, then take from the window. */
    method Piece(left: nat) returns (piece: seq<byte>)
      requires Valid() && left > 0 && imgOff + left <= imgEnd
      modifies this`imgOff, this`winOff, this`winLen, stage
      ensures Valid() && 0 < |piece| <= left && imgOff == old(imgOff) + |piece|
      ensures piece + Remaining() == old(Remaining())
    {
      if winLen == 0 || imgOff - winOff >= winLen {
        Refill();
      }
      piece := FromWindow(left);
    }

    method FromWindow(left: nat) returns (piece: seq<byte>)
      requires Valid() && left > 0 && imgOff + left <= imgEnd && winOff <= imgOff < winOff + winLen
      modifies this`imgOff
      ensures Valid() && 0 < |piece| <= left && imgOff == old(imgOff) + |piece|
      ensures piece + Remaining() == old(Remaining())
    {
      var at := imgOff - winOff;
      var take := winLen - at;
      if take > left { take := left; }
      piece := stage[at..at + take];
      assert lba * 512 + imgEnd <= |drive.bytes|;
      hide Sectors;
      WindowStep(stage[..], drive.bytes, lba * 512 + winOff, winLen, at, take, lba * 512 + imgEnd);
      imgOff := imgOff + take;
    }
  }
}
