/** The file system as the source keeps it: tables updated in place and file bytes in
    the pool. Every call is proved equal to its table-level meaning in `Tree`. */
module FileSystem {
  import opened Words
  import opened Paths
  import opened FilePool
  import opened Files
  import opened Tree
  import opened TreeRuns

  class FileSys {
    var dused: seq<bool>
    var dname: seq<Text>
    var downer: seq<int>
    var dmode: seq<int>
    var fused: seq<bool>
    var fname: seq<Text>
    var fowner: seq<int>
    var fmode: seq<int>
    var cwd: Text
    var uid: int
    const files: FileData

    /** `fs_init` over a fresh pool. */
    constructor (files: FileData)
      requires files.Valid() && forall i :: 0 <= i < MAX_F ==> files.fdata[i] == -1 && files.fsize[i] == 0
      ensures Valid() && this.files == files && uid == 0 && View() == Initial()
    {
      this.files := files;
      dused := seq(MAX_D, i => i == 0);
      dname := seq(MAX_D, i => if i == 0 then ROOT else []);
      downer := seq(MAX_D, _ => 0);
      dmode := seq(MAX_D, _ => 0x1ED);
      fused := seq(MAX_F, _ => false);
      fname := seq(MAX_F, _ => []);
      fowner := seq(MAX_F, _ => 0);
      fmode := seq(MAX_F, _ => 0x1ED);
      cwd := ROOT;
      uid := 0;
      new;
      assert files.All() == seq(MAX_F, _ => []);
    }

    ghost predicate Valid()
      reads this, files, files.pool
    {
      && |dused| == |dname| == |downer| == |dmode| == MAX_D
      && |fused| == |fname| == |fowner| == |fmode| == MAX_F
      && |cwd| <= 256
      && files.Valid() && |files.fdata| == |files.fsize| == MAX_F
      && (forall i :: 0 <= i < MAX_F ==> (files.fdata[i] == -1 <==> files.fsize[i] == 0))
      && (forall i :: 0 <= i < MAX_F && !fused[i] ==> files.fdata[i] == -1)
    }

    /** The tables as a value. */
    ghost function View(): (t: Fs)
      requires Valid()
      reads this, files, files.pool, files.pool.base
      ensures Shape(t)
    {
      Fs(dused, dname, downer, dmode, fused, fname, fowner, fmode, files.All(), cwd)
    }

    method FindFile(p: Text) returns (k: int)
      requires |fused| == |fname|
      ensures k == Find(fused, fname, p)
    {
      k := Scan(fused, fname, p);
    }

    method FindDir(p: Text) returns (k: int)
      requires |dused| == |dname|
      ensures k == Find(dused, dname, p)
    {
      k := Scan(dused, dname, p);
    }

    method FreeSlot(used: seq<bool>, from: nat) returns (k: int)
      requires from <= |used|
      ensures k == Unused(used, from)
    {
      k := from;
      while k < |used|
        invariant from <= k <= |used|
        invariant Unused(used, from) == Unused(used, k)
      {
        if !used[k] { return; }
        k := k + 1;
      }
      k := -1;
    }

    /** `may_modify_parent`. */
    method MayModify(full: Text) returns (ok: bool)
      requires Valid()
      ensures ok == MayModifyParent(View(), uid, full)
    {
      var d := FindDir(SplitParent(full));
      ok := d < 0 || Allows(uid, dmode[d], downer[d], WRITE);
    }

    /** `fs_directory_exists`. */
    method HasDirectory(path: Text) returns (ok: bool)
      requires Valid()
      ensures ok == DirectoryExists(View(), path)
    {
      if path == [] { return false; }
      if path == ROOT { return true; }
      var full := ComputeAbsPath(cwd, path);
      var d := FindDir(full);
      ok := d >= 0;
    }

    /** `parent_exists`: strip the last component and look the rest up. */
    method HasParent(full: Text) returns (ok: bool)
      requires Valid()
      ensures ok == ParentExists(View(), full)
    {
      if |full| <= 1 { return true; }
      var len := |full|;
      assert full[..len] == full;
      while len > 0 && full[len - 1] != SLASH
        invariant 0 <= len <= |full|
        invariant Cut(full) == Cut(full[..len])
      {
        assert full[..len][..len - 1] == full[..len - 1];
        len := len - 1;
      }
      assert Cut(full) == len;
      if len <= 1 { return true; }
      ok := HasDirectory(full[..len - 1]);
    }

    /** The checks of `fs_create_directory` and the slot it will use. */
    method PlanDirectory(path: Text) returns (code: int, i: int, full: Text)
      requires Valid()
      ensures code == 0 ==> 0 <= i < MAX_D
      ensures CreateDirectory(View(), uid, path) ==
        if code == 0 then (AddDir(View(), uid, i, full), 0) else (View(), code)
    {
      hide AbsPath, MayModifyParent, ParentExists, Consistent, Tiling, Coalesced;
      i := -1;
      full := ComputeAbsPath(cwd, path);
      if path == [] { return -1, i, full; }
      var ok := HasParent(full);
      if !ok || full == ROOT { return -1, i, full; }
      var d := FindDir(full);
      if d >= 0 { return -1, i, full; }
      var f := FindFile(full);
      if f >= 0 { return -1, i, full; }
      ok := MayModify(full);
      if !ok { return -2, i, full; }
      i := FreeSlot(dused, 1);
      code := if i == -1 then -1 else 0;
    }

    /** `fs_create_directory`. */
    method MakeDirectory(path: Text) returns (code: int)
      requires Valid()
      modifies this
      ensures Valid() && uid == old(uid)
      ensures (View(), code) == CreateDirectory(old(View()), uid, path)
    {
      hide CreateDirectory, Consistent, Tiling, Coalesced;
      var i, full;
      code, i, full := PlanDirectory(path);
      if code == 0 {
        dname, dused := dname[i := full], dused[i := true];
        downer, dmode := downer[i := uid], dmode[i := 0x1ED];
      }
    }

    /** The checks of `fs_create_file`; slot -1 with code 0 is an existing file. */
    method PlanFile(path: Text) returns (code: int, i: int, full: Text)
      requires Valid()
      ensures -1 <= i < MAX_F && (i >= 0 ==> code == 0 && !fused[i])
      ensures CreateFile(View(), uid, path) == if i >= 0 then (AddFile(View(), uid, i, full), 0) else (View(), code)
    {
      hide AbsPath, MayModifyParent, ParentExists, Consistent, Tiling, Coalesced;
      i := -1;
      full := ComputeAbsPath(cwd, path);
      if path == [] { return -1, i, full; }
      var ok := HasParent(full);
      if !ok { return -1, i, full; }
      var f := FindFile(full);
      if f >= 0 { return 0, i, full; }
      var d := FindDir(full);
      if d >= 0 { return -1, i, full; }
      ok := MayModify(full);
      if !ok { return -2, i, full; }
      i := FreeSlot(fused, 0);
      code := if i == -1 then -1 else 0;
    }

    /** `fs_create_file`. */
    method MakeFile(path: Text) returns (code: int)
      requires Valid()
      modifies this
      ensures Valid() && uid == old(uid)
      ensures (View(), code) == CreateFile(old(View()), uid, path)
    {
      hide CreateFile, Consistent, Tiling, Coalesced;
      var i, full;
      code, i, full := PlanFile(path);
      if i >= 0 {
        assert files.All()[i] == files.Contents(i) == [];
        fname, fused := fname[i := full], fused[i := true];
        fowner, fmode := fowner[i := uid], fmode[i := 0x1A4];
        assert files.All() == files.All()[i := []];
      }
    }

    /** `fs_delete_file`. */
    method RemoveFile(path: Text) returns (code: int)
      requires Valid()
      modifies this, files, files.pool
      ensures Valid() && uid == old(uid)
      ensures (View(), code) == DeleteFile(old(View()), uid, path)
    {
      hide AbsPath, MayModifyParent, ParentExists, Consistent, Tiling, Coalesced;
      if path == [] { return -1; }
      var full := ComputeAbsPath(cwd, path);
      var ok := MayModify(full);
      if !ok { return -2; }
      var i := FindFile(full);
      if i == -1 { return -1; }
      fused, fname := fused[i := false], fname[i := []];
      files.Release(i);
      assert files.All() == old(files.All())[i := []];
      return 0;
    }

    /** The two child scans of `fs_delete_directory`. */
    method HasChildren(full: Text) returns (found: bool)
      requires Valid()
      ensures found == HasChild(View(), full)
    {
      for i := 0 to MAX_F
        invariant forall j :: 0 <= j < i ==> !(fused[j] && ChildText(fname[j], full))
      {
        if fused[i] && ChildText(fname[i], full) { return true; }
      }
      for i := 0 to MAX_D
        invariant forall j :: 0 <= j < i ==> !(dused[j] && dname[j] != full && ChildText(dname[j], full))
      {
        if dused[i] && dname[i] != full && ChildText(dname[i], full) { return true; }
      }
      return false;
    }

    /** `fs_delete_directory`. */
    method RemoveDirectory(path: Text) returns (code: int)
      requires Valid()
      modifies this
      ensures Valid() && uid == old(uid)
      ensures (View(), code) == DeleteDirectory(old(View()), uid, path)
    {
      hide AbsPath, MayModifyParent, HasChild, Consistent, Tiling, Coalesced;
      if path == [] { return -1; }
      var full := ComputeAbsPath(cwd, path);
      var ok := MayModify(full);
      if !ok { return -2; }
      if path == ROOT { return -1; }
      var blocked := HasChildren(full);
      if blocked { return -2; }
      var i := FindDir(full);
      if i == -1 { return -1; }
      dused, dname := dused[i := false], dname[i := []];
      return 0;
    }

    /** `fs_change_directory`. */
    method Enter(path: Text) returns (code: int)
      requires Valid()
      modifies this`cwd
      ensures Valid()
      ensures (View(), code) == ChangeDirectory(old(View()), uid, path)
    {
      hide AbsPath, Consistent, Tiling, Coalesced;
      if path == [] {
        cwd := ROOT;
        return 0;
      }
      var full := ComputeAbsPath(cwd, path);
      var i := FindDir(full);
      if i == -1 { return -1; }
      if !Allows(uid, dmode[i], downer[i], EXEC) { return -2; }
      cwd := full;
      return 0;
    }

    /** The slot to write to, created on demand: the first half of the write calls. */
    method Target(path: Text, full: Text) returns (denied: bool, code: int, i: int)
      requires Valid() && full == AbsPath(cwd, path)
      modifies this
      ensures Valid() && uid == old(uid)
      ensures var t := old(View());
        var at := Find(t.fused, t.fname, full);
        var made := if at >= 0 then (t, 0) else CreateFile(t, uid, path);
        && denied == (at >= 0 && !Allows(uid, t.fmode[at], t.fowner[at], WRITE))
        && (denied ==> View() == t)
        && (!denied ==> (View(), code) == made && i == Find(View().fused, View().fname, full))
    {
      hide AbsPath, CreateFile, Allows, Consistent, Tiling, Coalesced;
      denied, code := false, 0;
      i := FindFile(full);
      if i >= 0 {
        denied := !Allows(uid, fmode[i], fowner[i], WRITE);
      } else {
        code := MakeFile(path);
        i := FindFile(full);
      }
    }

    /** Undoing the metadata of a failed write to an empty file. */
    method Undo(i: nat)
      requires Valid() && i < MAX_F && fused[i]
      modifies this`fused, this`fname
      ensures Valid()
      ensures View() == RollBack(old(View()), i)
    {
      hide Consistent, Tiling, Coalesced;
      BytesLength(files.pool.header, files.pool.starts, files.pool.base.Length, files.fdata, files.fsize, i, files.pool.base[..]);
      if files.fsize[i] == 0 && files.fdata[i] == -1 {
        fused, fname := fused[i := false], fname[i := []];
      }
    }

    /** `fs_write_file`. */
    method WriteAll(path: Text, bytes: seq<byte>) returns (code: int)
      requires Valid()
      modifies this, files, files.pool, files.pool.base
      ensures Valid() && uid == old(uid)
      ensures (View(), code) ==
        WriteFile(old(View()), uid, path, bytes, !old(NoRoom(files.pool.header, files.pool.starts, |bytes|)))
    {
      hide AbsPath, CreateFile, Allows, Consistent, Tiling, Coalesced, NoRoom;
      var full := ComputeAbsPath(cwd, path);
      var denied, made, i := Target(path, full);
      if denied { return -2; }
      if made != 0 || i == -1 { return -1; }
      if |bytes| > MAX_FILE_DATA - 1 {
        Undo(i);
        return -2;
      }
      var ok := Replace(i, bytes);
      if !ok {
        Undo(i);
        return -3;
      }
      return 0;
    }

    /** Resize to the new length, then copy the new bytes in. */
    method Replace(i: nat, bytes: seq<byte>) returns (ok: bool)
      requires Valid() && i < MAX_F && fused[i] && |bytes| <= MAX_FILE_DATA - 1
      modifies files, files.pool, files.pool.base
      ensures Valid()
      ensures ok == (bytes == [] || !old(NoRoom(files.pool.header, files.pool.starts, |bytes|)))
      ensures View() == if ok then old(View()).(data := old(View()).data[i := bytes]) else old(View())
    {
      hide Consistent, Tiling, Coalesced, NoRoom;
      var code := files.Resize(i, |bytes|);
      ok := code == 0;
      if ok && bytes != [] {
        files.Store(i, 0, bytes);
      }
      assert ok ==> files.Contents(i) == bytes;
      assert files.All() == if ok then old(files.All())[i := bytes] else old(files.All());
    }

    /** `fs_append_file`. */
    method AppendTo(path: Text, bytes: seq<byte>) returns (code: int)
      requires Valid()
      modifies this, files, files.pool, files.pool.base
      ensures Valid() && uid == old(uid)
      ensures (View(), code) == AppendFile(old(View()), uid, path, bytes,
        !old(NoRoom(files.pool.header, files.pool.starts, SizeAt(View(), path) + |bytes|)))
    {
      hide AbsPath, CreateFile, Allows, Consistent, Tiling, Coalesced, NoRoom;
      if path == [] || bytes == [] { return -1; }
      var full := ComputeAbsPath(cwd, path);
      var denied, made, i := Target(path, full);
      if denied { return -2; }
      if made != 0 { return made; }
      if i == -1 { return -1; }
      CreatedEmpty(old(View()), uid, path);
      BytesLength(files.pool.header, files.pool.starts, files.pool.base.Length, files.fdata, files.fsize, i, files.pool.base[..]);
      if files.fsize[i] + |bytes| > MAX_FILE_DATA - 1 { return -3; }
      var ok := Extend(i, bytes);
      return if ok then 0 else -4;
    }

    /** Grow the file and copy the new bytes behind the old ones. */
    method Extend(i: nat, bytes: seq<byte>) returns (ok: bool)
      requires Valid() && i < MAX_F && fused[i] && bytes != []
      requires files.fsize[i] + |bytes| <= MAX_FILE_DATA - 1
      modifies files, files.pool, files.pool.base
      ensures Valid()
      ensures ok == !old(NoRoom(files.pool.header, files.pool.starts, files.fsize[i] + |bytes|))
      ensures View() == if ok then old(View()).(data := old(View()).data[i := old(View()).data[i] + bytes]) else old(View())
    {
      hide Consistent, Tiling, Coalesced, NoRoom;
      ghost var was := files.Contents(i);
      BytesLength(files.pool.header, files.pool.starts, files.pool.base.Length, files.fdata, files.fsize, i, files.pool.base[..]);
      var size := files.fsize[i];
      var code := files.Resize(i, size + |bytes|);
      ok := code == 0;
      if ok {
        assert files.Contents(i)[..size] == was;
        files.Store(i, size, bytes);
        assert files.Contents(i) == was + bytes;
      }
      assert files.All() == if ok then old(files.All())[i := was + bytes] else old(files.All());
    }

    /** The directory scan of `fs_list_directory`: a line with a slash for each. */
    method ListSubdirs(dir: Text) returns (buf: Text)
      requires 1 <= |dused| == |dname|
      ensures var dirs := ListDirs(dused, dname, dir, 1, 0); buf == Lines(dirs.0) && |buf| == dirs.1
    {
      hide ListName, Lines;
      buf := [];
      var i := 1;
      ghost var all, done := ListDirs(dused, dname, dir, 1, 0), [];
      assert all.0 == done + all.0;
      NoLines();
      while i < |dname| && |buf| < LIST_CAP - 4
        invariant 1 <= i <= |dname| && buf == Lines(done)
        invariant var rest := ListDirs(dused, dname, dir, i, |buf|); all.0 == done + rest.0 && all.1 == rest.1
      {
        var name := ListName(dname[i], dir);
        if dused[i] && name != [] && |buf| + |name| + 3 < LIST_CAP {
          LinesAppend(done, Entry(name, true));
          done := done + [Entry(name, true)];
          buf := buf + name + [SLASH, NEWLINE];
        }
        i := i + 1;
      }
      assert ListDirs(dused, dname, dir, i, |buf|) == ([], |buf|);
      assert done + [] == done;
    }

    /** Its file scan, behind the directories. */
    method ListFilesIn(dir: Text, start: Text, ghost dirs: seq<Entry>) returns (buf: Text)
      requires |fused| == |fname| && start == Lines(dirs)
      ensures buf == Lines(dirs + ListFiles(fused, fname, dir, 0, |start|))
    {
      hide ListName, Lines;
      buf := start;
      var i: nat := 0;
      ghost var all, done := dirs + ListFiles(fused, fname, dir, 0, |start|), dirs;
      while i < |fname| && |buf| < LIST_CAP - 4
        invariant 0 <= i <= |fname| && buf == Lines(done)
        invariant all == done + ListFiles(fused, fname, dir, i, |buf|)
      {
        var name := ListName(fname[i], dir);
        if fused[i] && name != [] && |buf| + |name| + 2 < LIST_CAP {
          LinesAppend(done, Entry(name, false));
          done := done + [Entry(name, false)];
          buf := buf + name + [NEWLINE];
        }
        i := i + 1;
      }
      assert done + [] == done;
    }

    /** `fs_list_directory` of a canonical path: an error, or the lines of the entries. */
    method List(dir: Text) returns (code: int, buf: Text)
      requires Valid()
      ensures code == ListDirectory(View(), uid, dir).0 && buf == Lines(ListDirectory(View(), uid, dir).1)
    {
      hide AbsPath, Consistent, Tiling, Coalesced, Allows, ListDirs, ListFiles, Lines;
      NoLines();
      var ok := HasDirectory(dir);
      if !ok { return -1, []; }
      var d := FindDir(dir);
      if d >= 0 && !Allows(uid, dmode[d], downer[d], READ) { return -2, []; }
      buf := ListSubdirs(dir);
      buf := ListFilesIn(dir, buf, ListDirs(dused, dname, dir, 1, 0).0);
      code := 0;
    }

    /** `fs_delete_directory_recursive` of a canonical path to a tidy directory. */
    method RemoveTree(dir: Text) returns (code: int)
      requires Valid() && TreeInv(View()) && Canon(dir) && Tidy(View(), dir)
      modifies this, files, files.pool
      ensures Valid() && uid == old(uid) && TreeInv(View())
      ensures (View(), code) == DeleteRecursive(old(View()), uid, dir)
      decreases PATH_MAX + 1 - |dir|
    {
      hide AbsPath, Valid, View, ListDirectory, MayModifyParent, DirectoryExists, DeleteDirectory;
      hide DeleteRecursive, DeleteEntries, TreeInv, Canon, GoodEntries, Tidy, ParseLines, Lines;
      RecursiveCases(View(), uid, dir);
      var ok := MayModify(dir);
      if !ok { return -2; }
      ok := HasDirectory(dir);
      if !ok { return -1; }
      var listed, buf := List(dir);
      if listed != 0 { return -1; }
      code := RemoveEntries(dir, buf);
      if code == 0 {
        var last := RemoveDirectory(dir);
        code := if last == 0 then 0 else -1;
      }
    }

    /** The loop over the lines of the listing. */
    method RemoveEntries(dir: Text, buf: Text) returns (code: int)
      requires Valid() && TreeInv(View()) && Canon(dir) && Tidy(View(), dir) && GoodEntries(dir, ParseLines(buf))
      modifies this, files, files.pool
      ensures Valid() && uid == old(uid) && TreeInv(View())
      ensures (View(), code) == DeleteEntries(old(View()), uid, dir, ParseLines(buf))
      decreases PATH_MAX + 1 - |dir|, 1
    {
      hide Valid, View, TreeInv, Canon, Tidy, DeleteEntries, GoodEntries, ParseLines;
      ghost var t := View();
      var i := 0;
      assert buf[0..] == buf;
      while i < |buf|
        invariant 0 <= i <= |buf| && Valid() && uid == old(uid) && TreeInv(View()) && Tidy(View(), dir)
        invariant GoodEntries(dir, ParseLines(buf[i..]))
        invariant DeleteEntries(t, uid, dir, ParseLines(buf)) == DeleteEntries(View(), uid, dir, ParseLines(buf[i..]))
      {
        var line, next := ReadLine(buf, i);
        i := next;
        if |line| == 0 { continue; }
        ghost var rest := ParseLines(buf[i..]);
        EntriesStep(View(), uid, dir, ParseLine(line)[0], rest);
        var c;
        if line[|line| - 1] == SLASH {
          c := RemoveTree(Child(dir, line[..|line| - 1]));
        } else {
          c := RemoveFile(Child(dir, line));
        }
        if c != 0 { return -1; }
      }
      DeleteNothing(View(), uid, dir, buf[i..]);
      code := 0;
    }
  }

  /** The scan that every operation starts with. */
  method Scan(used: seq<bool>, names: seq<Text>, p: Text) returns (k: int)
    requires |used| == |names|
    ensures k == Find(used, names, p)
  {
    k := 0;
    while k < |used|
      invariant 0 <= k <= |used|
      invariant Find(used, names, p) == FindFrom(used, names, p, k)
    {
      if used[k] && names[k] == p { return; }
      k := k + 1;
    }
    k := -1;
  }

  /** One line of the listing, as far as it fits the 256 bytes for an entry. */
  method ReadLine(buf: Text, start: nat) returns (line: Text, next: nat)
    requires start < |buf|
    ensures start < next <= |buf| && ParseLines(buf[start..]) == ParseLine(line) + ParseLines(buf[next..])
    ensures line == [] ==> ParseLines(buf[start..]) == ParseLines(buf[next..])
  {
    hide ParseLines;
    line, next := [], start;
    while next < |buf| && buf[next] != NEWLINE && |line| < LINE_MAX
      invariant start <= next <= |buf| && line == buf[start..next] && NEWLINE !in line && |line| <= LINE_MAX
    {
      line := line + [buf[next]];
      next := next + 1;
    }
    ParseStep(buf, start, next);
    if next < |buf| && buf[next] == NEWLINE { next := next + 1; }
  }

  lemma ParseStep(buf: Text, start: nat, end: nat)
    requires start <= end <= |buf| && start < |buf| && end - start <= LINE_MAX && NEWLINE !in buf[start..end]
    requires end < |buf| && buf[end] != NEWLINE ==> end - start == LINE_MAX
    ensures var next := if end < |buf| && buf[end] == NEWLINE then end + 1 else end;
      ParseLines(buf[start..]) == ParseLine(buf[start..end]) + ParseLines(buf[next..])
  {
    hide LineLength, ParseLine;
    var s, k := buf[start..], end - start;
    assert s[..k] == buf[start..end] && s[k..] == buf[end..];
    LineEnd(s, k);
    if k < |s| { assert s[k + 1..] == buf[end + 1..]; }
  }

  lemma LineEnd(s: Text, k: nat)
    requires k <= |s| && k <= LINE_MAX && NEWLINE !in s[..k] && (k < |s| && s[k] != NEWLINE ==> k == LINE_MAX)
    ensures k == Min(LineLength(s), LINE_MAX)
  {
    assert forall i :: 0 <= i < k ==> s[i] == s[..k][i];
    assert forall i :: 0 <= i < LineLength(s) ==> s[i] == s[..LineLength(s)][i];
  }

  lemma NoLines()
    ensures Lines([]) == []
  {
  }

  lemma {:induction false} LinesAppend(done: seq<Entry>, e: Entry)
    ensures Lines(done + [e]) == Lines(done) + Line(e) + [NEWLINE]
    ensures |Lines(done + [e])| == |Lines(done)| + |Line(e)| + 1
  {
    hide Line;
    if done == [] {
      assert done + [e] == [e] && [e][1..] == [];
    } else {
      assert (done + [e])[1..] == done[1..] + [e];
      LinesAppend(done[1..], e);
    }
  }

  /** `DeleteEntries` on a listing with a first entry. */
  lemma EntriesStep(t: Fs, uid: int, dir: Text, e: Entry, rest: seq<Entry>)
    requires TreeInv(t) && Canon(dir) && Tidy(t, dir) && GoodEntries(dir, [e] + rest)
    ensures var p := Child(dir, e.name);
      && Shape(t) && Canon(p) && Tidy(t, p) && |dir| < |p| <= PATH_MAX && GoodEntries(dir, rest)
      && var r := if e.isDir then DeleteRecursive(t, uid, p) else DeleteFile(t, uid, p);
      && TreeInv(r.0) && Tidy(r.0, dir)
      && DeleteEntries(t, uid, dir, [e] + rest) == if r.1 != 0 then (r.0, -1) else DeleteEntries(r.0, uid, dir, rest)
  {
    hide TreeInv, Canon, Tidy, GoodEntry, DeleteFile, DeleteRecursive, Child, Under, Fewer;
    var entries := [e] + rest;
    assert entries[0] == e && entries[1..] == rest;
    assert GoodEntries(dir, rest) by { assert forall i :: 0 <= i < |rest| ==> rest[i] == entries[i + 1]; }
    EntryStep(t, uid, dir, e);
    var p := Child(dir, e.name);
    var r := if e.isDir then DeleteRecursive(t, uid, p) else DeleteFile(t, uid, p);
    FewerTidy(t, r.0, dir);
  }

  lemma DeleteNothing(t: Fs, uid: int, dir: Text, s: Text)
    requires TreeInv(t) && Canon(dir) && Tidy(t, dir) && s == []
    ensures GoodEntries(dir, ParseLines(s)) && DeleteEntries(t, uid, dir, ParseLines(s)) == (t, 0)
  {
  }

  /** The size of the file at `path`, 0 when there is none. */
  function SizeAt(t: Fs, path: Text): nat
    requires Shape(t)
  {
    var at := Find(t.fused, t.fname, AbsPath(t.cwd, path));
    if at >= 0 then |t.data[at]| else 0
  }

  lemma CreatedEmpty(t: Fs, uid: int, path: Text)
    requires Shape(t)
    ensures var full := AbsPath(t.cwd, path);
      var t1 := CreateFile(t, uid, path).0;
      Find(t.fused, t.fname, full) == -1 ==>
      var i := Find(t1.fused, t1.fname, full);
      i >= 0 ==> t1.data[i] == []
  {
  }

  /** A slot's value has as many bytes as its size says. */
  lemma BytesLength(header: map<nat, Header>, starts: set<nat>, bytes: nat, fdata: seq<int>, fsize: seq<nat>, i: nat, mem: seq<byte>)
    requires Tiling(header, starts, bytes) && Consistent(header, starts, fdata, fsize) && i < MAX_F && |mem| == bytes
    ensures |Bytes(mem, fdata[i], fsize[i])| == if fdata[i] == -1 then 0 else fsize[i]
  {
    SlotFacts(header, starts, bytes, fdata, fsize, i);
  }
}
