/** From the first operation of a session to the next boot. */
module Session {
  import opened Words
  import opened Tree
  import opened FileSystem
  import opened Image
  import opened Disk
  import opened Store
  import TreeRuns
  import Reachable

  /** The Storefile property end to end: after any run of operations from the initial file
      system, if its non-empty files leave 24 bytes of the next pool, saving through the
      batch writer and booting through the windowed reader gives back every name, flag,
      size, content, owner, mode, the cwd and the configuration. */
  method SaveAndBootAgain(fs: FileSys, next: FileSys, drive: Drive, lba: nat, build: Build, cfg: seq<byte>, ghost ops: seq<(int, TreeRuns.Op)>)
    returns (ok: bool, got: seq<byte>)
    requires fs.Valid() && TreeRuns.Reaches(TreeRuns.Initial(), ops, fs.View())
    requires forall i :: 0 <= i < |ops| ==> Reachable.CArguments(ops[i].0, ops[i].1)
    requires Need(fs.fused, fs.View().data) + 24 <= next.files.pool.base.Length
    requires fs.files.pool.base.Length <= POOL_MAX && drive.Valid() && |cfg| <= CFG_MAX
    requires Place(drive.sectors, |cfg|) == Some(lba)
    requires next.files.Valid()
    requires {fs, fs.files, fs.files.pool, fs.files.pool.base} !! {next, next.files, next.files.pool, next.files.pool.base}
    modifies drive, next, next.files, next.files.pool, next.files.pool.base
    ensures ok && next.Valid() && next.View() == old(fs.View()) && got == cfg
  {
    ghost var t := fs.View();
    assert t.fused == fs.fused;
    TreeRuns.InitialTree();
    Reachable.InitialStorable();
    hide fs.Valid, fs.View, fs.files.Valid, Storable, TreeInv, TreeRuns.Reaches, Need, Reloads;
    Reachable.StorableAlways(TreeRuns.Initial(), ops, t);
    SlackReloads(next.files.pool.base.Length, t.fused, t.data);
    ok, got := SaveAndBoot(fs, next, drive, lba, build, cfg);
  }
}
