/** What the name tables mean: finite maps from paths to directories and files. Every
    operation on the slots is an update of those maps, whatever slot it uses. */
module Meaning {
  import opened Words
  import opened Paths
  import opened Files
  import opened Tree
  import opened TreeRuns

  datatype File = File(data: seq<byte>, owner: int, mode: int)
  datatype Dir = Dir(owner: int, mode: int)

  // ------------------------------------------------------- one table of slots

  ghost predicate Slots<V>(used: seq<bool>, names: seq<Text>, vals: seq<V>) {
    |used| == |names| == |vals|
  }

  /** The value under each live name. */
  ghost function Table<V>(used: seq<bool>, names: seq<Text>, vals: seq<V>): map<Text, V>
    requires Slots(used, names, vals)
  {
    map p | p in (set i | 0 <= i < |used| && used[i] :: names[i]) && Find(used, names, p) >= 0 :: vals[Find(used, names, p)]
  }

  lemma TableHas<V>(used: seq<bool>, names: seq<Text>, vals: seq<V>, p: Text)
    requires Slots(used, names, vals)
    ensures p in Table(used, names, vals) <==> Find(used, names, p) >= 0
    ensures p in Table(used, names, vals) ==> Table(used, names, vals)[p] == vals[Find(used, names, p)]
  {
  }

  lemma FindIs(used: seq<bool>, names: seq<Text>, i: nat)
    requires |used| == |names| && i < |used| && used[i] && DistinctNames(used, names)
    ensures Find(used, names, names[i]) == i
  {
  }

  lemma TableAdd<V>(used: seq<bool>, names: seq<Text>, vals: seq<V>, i: nat, p: Text, v: V)
    requires Slots(used, names, vals) && i < |used| && !used[i] && Find(used, names, p) == -1 && DistinctNames(used, names)
    ensures Table(used[i := true], names[i := p], vals[i := v]) == Table(used, names, vals)[p := v]
    ensures DistinctNames(used[i := true], names[i := p])
  {
    hide Table, Find;
    var used', names', vals' := used[i := true], names[i := p], vals[i := v];
    FindIs(used', names', i);
    forall x ensures (x in Table(used', names', vals') <==> x in Table(used, names, vals) || x == p) &&
                     (x != p && x in Table(used, names, vals) ==> x in Table(used', names', vals') && Table(used', names', vals')[x] == Table(used, names, vals)[x]) {
      TableHas(used, names, vals, x);
      TableHas(used', names', vals', x);
      var k := Find(used, names, x);
      if k >= 0 { FindIs(used', names', k); }
    }
    TableHas(used', names', vals', p);
  }

  lemma TableDrop<V>(used: seq<bool>, names: seq<Text>, vals: seq<V>, i: nat, v: V)
    requires Slots(used, names, vals) && i < |used| && used[i] && DistinctNames(used, names)
    ensures Table(used[i := false], names[i := []], vals[i := v]) == Table(used, names, vals) - {names[i]}
  {
    hide Table, Find;
    var used', names', vals' := used[i := false], names[i := []], vals[i := v];
    forall x ensures (x in Table(used', names', vals') <==> x in Table(used, names, vals) && x != names[i]) &&
                     (x in Table(used', names', vals') ==> x in Table(used, names, vals) && Table(used', names', vals')[x] == Table(used, names, vals)[x]) {
      TableHas(used, names, vals, x);
      TableHas(used', names', vals', x);
      var k, k' := Find(used, names, x), Find(used', names', x);
      if k' >= 0 { FindIs(used, names, k'); }
      if k >= 0 && k != i { assert used'[k] && names'[k] == x && x != names[i]; }
    }
  }

  lemma TableSet<V>(used: seq<bool>, names: seq<Text>, vals: seq<V>, i: nat, v: V)
    requires Slots(used, names, vals) && i < |used| && used[i] && DistinctNames(used, names)
    ensures Table(used, names, vals[i := v]) == Table(used, names, vals)[names[i] := v]
  {
  }

  // ------------------------------------------------------------- both tables

  ghost function DirVals(t: Fs): (r: seq<Dir>)
    requires Shape(t)
    ensures |r| == MAX_D
  {
    seq(MAX_D, i requires 0 <= i < MAX_D => Dir(t.downer[i], t.dmode[i]))
  }

  ghost function FileVals(t: Fs): (r: seq<File>)
    requires Shape(t)
    ensures |r| == MAX_F
  {
    seq(MAX_F, i requires 0 <= i < MAX_F => File(t.data[i], t.fowner[i], t.fmode[i]))
  }

  ghost function Dirs(t: Fs): map<Text, Dir>
    requires Shape(t)
  {
    Table(t.dused, t.dname, DirVals(t))
  }

  ghost function FilesOf(t: Fs): map<Text, File>
    requires Shape(t)
  {
    Table(t.fused, t.fname, FileVals(t))
  }

  /** What the tree invariant says about names. */
  ghost predicate Unique(t: Fs) {
    Shape(t) && DistinctNames(t.dused, t.dname) && DistinctNames(t.fused, t.fname)
  }

  /** A new directory belongs to its maker and is open to all; a failure changes nothing. */
  lemma CreateDirectoryMeans(t: Fs, uid: int, path: Text)
    requires Unique(t)
    ensures var r, full := CreateDirectory(t, uid, path), AbsPath(t.cwd, path);
      && FilesOf(r.0) == FilesOf(t) && r.0.cwd == t.cwd
      && (r.1 == 0 ==> full !in Dirs(t) && full !in FilesOf(t))
      && Dirs(r.0) == if r.1 == 0 then Dirs(t)[full := Dir(uid, 0x1ED)] else Dirs(t)
  {
    hide AbsPath, ParentExists, MayModifyParent, Table, Find;
    var r, full := CreateDirectory(t, uid, path), AbsPath(t.cwd, path);
    TableHas(t.dused, t.dname, DirVals(t), full);
    TableHas(t.fused, t.fname, FileVals(t), full);
    if r.1 == 0 {
      var i := Unused(t.dused, 1);
      TableAdd(t.dused, t.dname, DirVals(t), i, full, Dir(uid, 0x1ED));
      assert DirVals(r.0) == DirVals(t)[i := Dir(uid, 0x1ED)] && FileVals(r.0) == FileVals(t);
    }
  }

  /** A new file is empty; making an existing one changes nothing. */
  lemma CreateFileMeans(t: Fs, uid: int, path: Text)
    requires Unique(t)
    ensures var r, full := CreateFile(t, uid, path), AbsPath(t.cwd, path);
      && Unique(r.0) && Dirs(r.0) == Dirs(t) && r.0.cwd == t.cwd
      && (r.1 == 0 ==> full in FilesOf(r.0))
      && (r.1 != 0 ==> r.0 == t && -2 <= r.1 < 0)
      && FilesOf(r.0) == if r.1 == 0 && full !in FilesOf(t) then FilesOf(t)[full := File([], uid, 0x1A4)] else FilesOf(t)
  {
    hide AbsPath, ParentExists, MayModifyParent, Table, Find;
    var r, full := CreateFile(t, uid, path), AbsPath(t.cwd, path);
    TableHas(t.fused, t.fname, FileVals(t), full);
    if r.1 == 0 && Find(t.fused, t.fname, full) == -1 {
      var i := Unused(t.fused, 0);
      TableAdd(t.fused, t.fname, FileVals(t), i, full, File([], uid, 0x1A4));
      assert FileVals(r.0) == FileVals(t)[i := File([], uid, 0x1A4)] && DirVals(r.0) == DirVals(t);
    }
  }

  lemma DeleteFileMeans(t: Fs, uid: int, path: Text)
    requires Unique(t)
    ensures var r, full := DeleteFile(t, uid, path), AbsPath(t.cwd, path);
      && Dirs(r.0) == Dirs(t) && r.0.cwd == t.cwd
      && (r.1 == 0 ==> full in FilesOf(t))
      && FilesOf(r.0) == if r.1 == 0 then FilesOf(t) - {full} else FilesOf(t)
  {
    hide AbsPath, MayModifyParent, Table, Find;
    var r, full := DeleteFile(t, uid, path), AbsPath(t.cwd, path);
    TableHas(t.fused, t.fname, FileVals(t), full);
    if r.1 == 0 { DropFileMeans(t, Find(t.fused, t.fname, full)); }
  }

  lemma DropFileMeans(t: Fs, i: nat)
    requires Unique(t) && i < MAX_F && t.fused[i]
    ensures FilesOf(DropFile(t, i)) == FilesOf(t) - {t.fname[i]} && Dirs(DropFile(t, i)) == Dirs(t)
  {
    hide Table;
    var t' := DropFile(t, i);
    TableDrop(t.fused, t.fname, FileVals(t), i, FileVals(t')[i]);
    assert FileVals(t') == FileVals(t)[i := FileVals(t')[i]] && DirVals(t') == DirVals(t);
  }

  lemma DeleteDirectoryMeans(t: Fs, uid: int, path: Text)
    requires Unique(t)
    ensures var r, full := DeleteDirectory(t, uid, path), AbsPath(t.cwd, path);
      && FilesOf(r.0) == FilesOf(t) && r.0.cwd == t.cwd
      && (r.1 == 0 ==> full in Dirs(t))
      && Dirs(r.0) == if r.1 == 0 then Dirs(t) - {full} else Dirs(t)
  {
    hide AbsPath, MayModifyParent, HasChild, Table, Find;
    var r, full := DeleteDirectory(t, uid, path), AbsPath(t.cwd, path);
    TableHas(t.dused, t.dname, DirVals(t), full);
    if r.1 == 0 {
      var i := Find(t.dused, t.dname, full);
      TableDrop(t.dused, t.dname, DirVals(t), i, DirVals(t)[i]);
      assert DirVals(r.0) == DirVals(t) == DirVals(t)[i := DirVals(t)[i]] && FileVals(r.0) == FileVals(t);
    }
  }

  lemma SetDataMeans(t: Fs, i: nat, bytes: seq<byte>)
    requires Unique(t) && i < MAX_F && t.fused[i]
    ensures var t', p := t.(data := t.data[i := bytes]), t.fname[i];
      && Dirs(t') == Dirs(t) && p in FilesOf(t)
      && FilesOf(t') == FilesOf(t)[p := FilesOf(t)[p].(data := bytes)]
  {
    hide Table, Find;
    var t' := t.(data := t.data[i := bytes]);
    FindIs(t.fused, t.fname, i);
    TableHas(t.fused, t.fname, FileVals(t), t.fname[i]);
    TableSet(t.fused, t.fname, FileVals(t), i, FileVals(t)[i].(data := bytes));
    assert FileVals(t') == FileVals(t)[i := FileVals(t)[i].(data := bytes)] && DirVals(t') == DirVals(t);
  }

  /** The file a write works on: the existing one or a new empty one. */
  ghost function Opened(files: map<Text, File>, full: Text, uid: int): File {
    if full in files then files[full] else File([], uid, 0x1A4)
  }

  /** More bytes than a file may have, or than the pool has room for. */
  ghost predicate TooMuch(bytes: seq<byte>, room: bool) {
    |bytes| > MAX_FILE_DATA - 1 || !room
  }

  /** After a successful write the path holds exactly the bytes, with owner and mode kept or
      set at creation. A failed write leaves no new file, but it removes one: exactly an
      empty file that the caller may write to, when the bytes are too many or there is no
      room for them. */
  lemma WriteFileMeans(t: Fs, uid: int, path: Text, bytes: seq<byte>, room: bool)
    requires Unique(t)
    ensures var r, full, files := WriteFile(t, uid, path, bytes, room), AbsPath(t.cwd, path), FilesOf(t);
      && Dirs(r.0) == Dirs(t) && r.0.cwd == t.cwd
      && (r.1 == 0 ==> FilesOf(r.0) == files[full := Opened(files, full, uid).(data := bytes)])
      && (r.1 != 0 ==> FilesOf(r.0) == files || FilesOf(r.0) == files - {full})
      && (r.1 != 0 && FilesOf(r.0) != files <==>
            && full in files && files[full].data == [] && Allows(uid, files[full].mode, files[full].owner, WRITE)
            && bytes != [] && TooMuch(bytes, room))
  {
    hide AbsPath, CreateFile, Allows, Dirs, FilesOf, RollBack, Find, DistinctNames;
    var full := AbsPath(t.cwd, path);
    OpenMeans(t, uid, path, full);
    var t1 := OpenedTables(t, uid, path, full);
    var i := Find(t1.fused, t1.fname, full);
    if i >= 0 {
      SetDataMeans(t1, i, bytes);
      RollBackMeans(t1, i);
      DataOf(t1, i);
      MapPut(FilesOf(t), full, Opened(FilesOf(t), full, uid), bytes);
    }
  }

  /** The tables once the file is there, when it could be made. */
  ghost function OpenedTables(t: Fs, uid: int, path: Text, full: Text): Fs
    requires Shape(t)
  {
    if Find(t.fused, t.fname, full) >= 0 then t else CreateFile(t, uid, path).0
  }

  lemma OpenMeans(t: Fs, uid: int, path: Text, full: Text)
    requires Unique(t) && full == AbsPath(t.cwd, path)
    ensures var t1, files := OpenedTables(t, uid, path, full), FilesOf(t);
      && Unique(t1) && Shape(t1) && Dirs(t1) == Dirs(t) && t1.cwd == t.cwd
      && (Find(t.fused, t.fname, full) >= 0 <==> full in files) && -2 <= CreateFile(t, uid, path).1 <= 0
      && (Find(t.fused, t.fname, full) < 0 && CreateFile(t, uid, path).1 != 0 ==> t1 == t)
      && (Find(t1.fused, t1.fname, full) < 0 ==> CreateFile(t, uid, path).1 != 0)
      && FilesOf(t1) == if Find(t1.fused, t1.fname, full) >= 0 then files[full := Opened(files, full, uid)] else files
  {
    hide AbsPath, CreateFile, Table, Find;
    CreateFileMeans(t, uid, path);
    TableHas(t.fused, t.fname, FileVals(t), full);
    var t1 := OpenedTables(t, uid, path, full);
    TableHas(t1.fused, t1.fname, FileVals(t1), full);
  }

  lemma MapPut(files: map<Text, File>, p: Text, f: File, bytes: seq<byte>)
    ensures files[p := f][p := f.(data := bytes)] == files[p := f.(data := bytes)]
    ensures p !in files ==> files[p := f] - {p} == files
    ensures p in files && files[p] == f ==> files[p := f] == files
    ensures files[p := f] - {p} == files - {p}
    ensures p in files ==> files - {p} != files
    ensures p !in files ==> files[p := f] != files
  {
    assert p !in files - {p} && p in files[p := f];
  }

  lemma RollBackMeans(t: Fs, i: nat)
    requires Unique(t) && i < MAX_F && t.fused[i]
    ensures Dirs(RollBack(t, i)) == Dirs(t) && RollBack(t, i).cwd == t.cwd && t.fname[i] in FilesOf(t)
    ensures FilesOf(RollBack(t, i)) == if FilesOf(t)[t.fname[i]].data == [] then FilesOf(t) - {t.fname[i]} else FilesOf(t)
  {
    hide Table, Find;
    FindIs(t.fused, t.fname, i);
    TableHas(t.fused, t.fname, FileVals(t), t.fname[i]);
    if t.data[i] == [] {
      TableDrop(t.fused, t.fname, FileVals(t), i, FileVals(t)[i]);
      var t' := RollBack(t, i);
      assert FileVals(t') == FileVals(t) == FileVals(t)[i := FileVals(t)[i]] && DirVals(t') == DirVals(t);
    }
  }

  /** A successful append puts the bytes behind the old ones; a failed one leaves all
      contents alone, but a file it made for the purpose stays, empty. That happens exactly
      when the file could be made and the bytes are too many or there is no room. */
  lemma AppendFileMeans(t: Fs, uid: int, path: Text, bytes: seq<byte>, room: bool)
    requires Unique(t)
    ensures var r, full, files := AppendFile(t, uid, path, bytes, room), AbsPath(t.cwd, path), FilesOf(t);
      && Dirs(r.0) == Dirs(t) && r.0.cwd == t.cwd
      && (r.1 == 0 ==> var f := Opened(files, full, uid); FilesOf(r.0) == files[full := f.(data := f.data + bytes)])
      && (r.1 != 0 ==> FilesOf(r.0) == files || FilesOf(r.0) == files[full := File([], uid, 0x1A4)])
      && (r.1 != 0 && FilesOf(r.0) != files <==>
            full !in files && path != [] && bytes != [] && CreateFile(t, uid, path).1 == 0 && TooMuch(bytes, room))
  {
    hide AbsPath, CreateFile, Allows, Dirs, FilesOf, Find, DistinctNames;
    var full := AbsPath(t.cwd, path);
    OpenMeans(t, uid, path, full);
    var t1 := OpenedTables(t, uid, path, full);
    var i := Find(t1.fused, t1.fname, full);
    if i >= 0 {
      SetDataMeans(t1, i, t1.data[i] + bytes);
      DataOf(t1, i);
      var f := Opened(FilesOf(t), full, uid);
      MapPut(FilesOf(t), full, f, f.data + bytes);
    }
  }

  lemma DataOf(t: Fs, i: nat)
    requires Unique(t) && i < MAX_F && t.fused[i]
    ensures t.fname[i] in FilesOf(t) && FilesOf(t)[t.fname[i]] == File(t.data[i], t.fowner[i], t.fmode[i])
  {
  }

  // ------------------------------------------------- when an operation succeeds

  /** The directory a path lies in is there. */
  ghost predicate HasParent(t: Fs, full: Text)
    requires Shape(t)
  {
    ParentOf(full) == ROOT || ParentOf(full) in Dirs(t)
  }

  /** Entries may be made and removed in the directory of a path. */
  ghost predicate ParentWritable(t: Fs, uid: int, full: Text)
    requires Shape(t)
  {
    ParentOf(full) in Dirs(t) ==> Allows(uid, Dirs(t)[ParentOf(full)].mode, Dirs(t)[ParentOf(full)].owner, WRITE)
  }

  /** The tests on the text of a path answer for its parent directory. */
  lemma ParentTests(t: Fs, uid: int, full: Text)
    requires TreeInv(t) && Canon(full)
    ensures ParentExists(t, full) <==> HasParent(t, full)
    ensures MayModifyParent(t, uid, full) <==> ParentWritable(t, uid, full)
  {
    hide AbsPath, Canon, ParentOf, Components, Allows, Table, Find, Cut, SplitParent, Placed;
    SplitIsParent(full);
    var p := ParentOf(full);
    TableHas(t.dused, t.dname, DirVals(t), p);
    if full == ROOT {
      CanonRoot();
    } else {
      ParentText(full);
      AbsOfCanon(t.cwd, p);
    }
  }

  lemma SplitIsParent(full: Text)
    requires Canon(full)
    ensures SplitParent(full) == ParentOf(full)
  {
    if full != ROOT { ParentText(full); }
  }

  ghost predicate SlotFrom(used: seq<bool>, first: nat) {
    exists i :: first <= i < |used| && !used[i]
  }

  /** Which codes a call to make a directory returns. */
  lemma CreateDirectoryCodes(t: Fs, uid: int, path: Text)
    requires TreeInv(t) && Canon(AbsPath(t.cwd, path))
    ensures var code, full := CreateDirectory(t, uid, path).1, AbsPath(t.cwd, path);
      var fine := path != [] && full != ROOT && HasParent(t, full) && full !in Dirs(t) && full !in FilesOf(t);
      && (code == 0 <==> fine && ParentWritable(t, uid, full) && SlotFrom(t.dused, 1))
      && (code == -2 <==> fine && !ParentWritable(t, uid, full))
      && -2 <= code <= 0
  {
    var full := AbsPath(t.cwd, path);
    ParentTests(t, uid, full);
    hide AbsPath, Canon, ParentExists, MayModifyParent, HasParent, ParentWritable, Placed, Table, Find;
    TableHas(t.dused, t.dname, DirVals(t), full);
    TableHas(t.fused, t.fname, FileVals(t), full);
  }

  lemma CreateFileCodes(t: Fs, uid: int, path: Text)
    requires TreeInv(t) && Canon(AbsPath(t.cwd, path))
    ensures var code, full := CreateFile(t, uid, path).1, AbsPath(t.cwd, path);
      var fine := path != [] && HasParent(t, full);
      && (code == 0 <==> fine && (full in FilesOf(t) || (full !in Dirs(t) && ParentWritable(t, uid, full) && SlotFrom(t.fused, 0))))
      && (code == -2 <==> fine && full !in FilesOf(t) && full !in Dirs(t) && !ParentWritable(t, uid, full))
  {
    var full := AbsPath(t.cwd, path);
    ParentTests(t, uid, full);
    hide AbsPath, Canon, ParentExists, MayModifyParent, HasParent, ParentWritable, Placed, Table, Find;
    TableHas(t.dused, t.dname, DirVals(t), full);
    TableHas(t.fused, t.fname, FileVals(t), full);
  }

  lemma DeleteFileCodes(t: Fs, uid: int, path: Text)
    requires TreeInv(t) && Canon(AbsPath(t.cwd, path))
    ensures var code, full := DeleteFile(t, uid, path).1, AbsPath(t.cwd, path);
      && (code == 0 <==> path != [] && ParentWritable(t, uid, full) && full in FilesOf(t))
      && (code == -2 <==> path != [] && !ParentWritable(t, uid, full))
  {
    var full := AbsPath(t.cwd, path);
    ParentTests(t, uid, full);
    hide AbsPath, Canon, MayModifyParent, ParentWritable, Placed, Table, Find;
    TableHas(t.fused, t.fname, FileVals(t), full);
  }

  /** Something is listed in the directory. */
  ghost predicate Holds(t: Fs, dir: Text)
    requires Shape(t)
  {
    exists p :: (p in Dirs(t) || p in FilesOf(t)) && p != ROOT && ParentOf(p) == dir
  }

  lemma HoldsChild(t: Fs, dir: Text)
    requires TreeInv(t) && Canon(dir)
    ensures HasChild(t, dir) <==> dir != ROOT && Holds(t, dir)
  {
    hide Table, Find, Canon, ParentOf, ChildText, Rooted;
    forall i | 0 <= i < MAX_F && t.fused[i]
      ensures ChildText(t.fname[i], dir) <==> dir != ROOT && t.fname[i] != ROOT && ParentOf(t.fname[i]) == dir
      ensures t.fname[i] in FilesOf(t)
    {
      ChildDecided(t.fname[i], dir);
      FindIs(t.fused, t.fname, i);
      TableHas(t.fused, t.fname, FileVals(t), t.fname[i]);
    }
    forall i | 0 <= i < MAX_D && t.dused[i]
      ensures ChildText(t.dname[i], dir) <==> dir != ROOT && t.dname[i] != ROOT && ParentOf(t.dname[i]) == dir
      ensures ChildText(t.dname[i], dir) ==> t.dname[i] != dir
      ensures t.dname[i] in Dirs(t)
    {
      ChildDecided(t.dname[i], dir);
      FindIs(t.dused, t.dname, i);
      TableHas(t.dused, t.dname, DirVals(t), t.dname[i]);
    }
    if Holds(t, dir) && dir != ROOT {
      var p :| (p in Dirs(t) || p in FilesOf(t)) && p != ROOT && ParentOf(p) == dir;
      TableHas(t.dused, t.dname, DirVals(t), p);
      TableHas(t.fused, t.fname, FileVals(t), p);
    }
  }

  lemma ChildDecided(p: Text, dir: Text)
    requires Canon(p) && Canon(dir)
    ensures ChildText(p, dir) <==> dir != ROOT && p != ROOT && ParentOf(p) == dir
    ensures ChildText(p, dir) ==> p != dir
  {
    if dir == ROOT {
      SecondNotSlash(p);
    } else {
      ChildIsParent(p, dir);
    }
  }

  lemma SecondNotSlash(p: Text)
    requires Canon(p)
    ensures |p| > 1 ==> p[1] != SLASH
  {
    hide Components;
    var cs := Components(p);
    if cs != [] { assert ProperName(cs[0]) && p[1] == cs[0][0] && cs[0][0] in cs[0]; }
  }

  /** A directory goes exactly when it is there, its parent may be changed and it holds
      nothing. The root is refused under the name "/" only: under any other name it goes
      whatever it holds. */
  lemma DeleteDirectoryCodes(t: Fs, uid: int, path: Text)
    requires TreeInv(t) && Canon(AbsPath(t.cwd, path))
    ensures var code, full := DeleteDirectory(t, uid, path).1, AbsPath(t.cwd, path);
      && (code == 0 <==> path != [] && path != ROOT && ParentWritable(t, uid, full) && full in Dirs(t) && (full == ROOT || !Holds(t, full)))
      && (code == -2 <==> path != [] && (!ParentWritable(t, uid, full) || (path != ROOT && full != ROOT && Holds(t, full))))
  {
    var full := AbsPath(t.cwd, path);
    ParentTests(t, uid, full);
    HoldsChild(t, full);
    hide AbsPath, Canon, MayModifyParent, ParentWritable, Placed, Holds, HasChild, Table, Find;
    TableHas(t.dused, t.dname, DirVals(t), full);
  }

  /** A write needs the file's own write bit or a file that can be made, a size below the
      limit, and room for any byte at all. */
  lemma WriteFileCodes(t: Fs, uid: int, path: Text, bytes: seq<byte>, room: bool)
    requires Unique(t)
    ensures var code, full, files := WriteFile(t, uid, path, bytes, room).1, AbsPath(t.cwd, path), FilesOf(t);
      && (code == 0 <==>
            && (if full in files then Allows(uid, files[full].mode, files[full].owner, WRITE) else CreateFile(t, uid, path).1 == 0)
            && |bytes| < 0x200_0000 && (bytes == [] || room))
  {
    hide AbsPath, CreateFile, Allows, Dirs, FilesOf, RollBack, Find, DistinctNames;
    var full := AbsPath(t.cwd, path);
    OpenMeans(t, uid, path, full);
    CreateFileMeans(t, uid, path);
    var at := Find(t.fused, t.fname, full);
    if at >= 0 { DataOf(t, at); } else if CreateFile(t, uid, path).1 == 0 { MadeIsThere(t, uid, path, full); }
  }

  lemma MadeIsThere(t: Fs, uid: int, path: Text, full: Text)
    requires Unique(t) && full == AbsPath(t.cwd, path) && CreateFile(t, uid, path).1 == 0
    ensures var t1 := CreateFile(t, uid, path).0; Find(t1.fused, t1.fname, full) >= 0
  {
    hide CreateFile, Find, Table;
    CreateFileMeans(t, uid, path);
    var t1 := CreateFile(t, uid, path).0;
    TableHas(t1.fused, t1.fname, FileVals(t1), full);
  }

  lemma AppendFileCodes(t: Fs, uid: int, path: Text, bytes: seq<byte>, room: bool)
    requires Unique(t)
    ensures var code, full, files := AppendFile(t, uid, path, bytes, room).1, AbsPath(t.cwd, path), FilesOf(t);
      && (code == 0 <==>
            && path != [] && bytes != [] && room
            && (if full in files then Allows(uid, files[full].mode, files[full].owner, WRITE) else CreateFile(t, uid, path).1 == 0)
            && |Opened(files, full, uid).data| + |bytes| < 0x200_0000)
  {
    hide AbsPath, CreateFile, Allows, Dirs, FilesOf, Find, DistinctNames;
    var full := AbsPath(t.cwd, path);
    OpenMeans(t, uid, path, full);
    CreateFileMeans(t, uid, path);
    var at := Find(t.fused, t.fname, full);
    if at >= 0 {
      DataOf(t, at);
    } else if CreateFile(t, uid, path).1 == 0 {
      MadeIsThere(t, uid, path, full);
      var t1 := CreateFile(t, uid, path).0;
      DataOf(t1, Find(t1.fused, t1.fname, full));
    }
  }

  /** Entering: no path means the root; any other path becomes the cwd exactly when it is a
      directory the caller may enter. Directories and files stay as they are. */
  lemma ChangeDirectoryMeans(t: Fs, uid: int, path: Text)
    requires Unique(t)
    ensures var r, full, dirs := ChangeDirectory(t, uid, path), AbsPath(t.cwd, path), Dirs(t);
      && Dirs(r.0) == dirs && FilesOf(r.0) == FilesOf(t)
      && r.0.cwd == (if r.1 != 0 then t.cwd else if path == [] then ROOT else full)
      && (r.1 == 0 <==> path == [] || (full in dirs && Allows(uid, dirs[full].mode, dirs[full].owner, EXEC)))
      && (r.1 == -1 <==> path != [] && full !in dirs)
  {
    hide AbsPath, Allows, Table, Find;
    TableHas(t.dused, t.dname, DirVals(t), AbsPath(t.cwd, path));
    var t' := ChangeDirectory(t, uid, path).0;
    assert DirVals(t') == DirVals(t) && FileVals(t') == FileVals(t);
  }

  /** A listing needs the directory and its read bit, and an error lists nothing. */
  lemma ListCodes(t: Fs, uid: int, dir: Text)
    requires TreeInv(t) && Canon(dir)
    ensures var r, dirs := ListDirectory(t, uid, dir), Dirs(t);
      && (r.0 == 0 <==> (dir == ROOT || dir in dirs) && (dir in dirs ==> Allows(uid, dirs[dir].mode, dirs[dir].owner, READ)))
      && (r.0 == -1 <==> dir != ROOT && dir !in dirs)
      && (r.0 != 0 ==> r.1 == [])
  {
    CanonAbsolute(dir);
    AbsOfCanon(t.cwd, dir);
    hide AbsPath, Canon, Allows, Placed, ListDirs, ListFiles, Table, Find;
    TableHas(t.dused, t.dname, DirVals(t), dir);
  }

  /** A successful recursive delete keeps exactly the entries that are not below the path. */
  lemma DeleteRecursiveMeans(t: Fs, uid: int, dir: Text)
    requires TreeInv(t) && Canon(dir) && dir != ROOT && Tidy(t, dir) && DeleteRecursive(t, uid, dir).1 == 0
    ensures var t' := DeleteRecursive(t, uid, dir).0;
      && Shape(t') && t'.cwd == t.cwd
      && Dirs(t') == (map p | p in Dirs(t) && !Under(p, dir) :: Dirs(t)[p])
      && FilesOf(t') == (map p | p in FilesOf(t) && !Under(p, dir) :: FilesOf(t)[p])
  {
    DeleteRecursiveExact(t, uid, dir);
    hide DeleteRecursive, Table, Canon, Under, Tidy;
    var t' := Removed(t, dir);
    assert Shape(t');
    assert DirVals(t') == DirVals(t);
    TableThin(t.dused, t.dname, DirVals(t), t'.dused, t'.dname, DirVals(t'), dir);
    TableThin(t.fused, t.fname, FileVals(t), t'.fused, t'.fname, FileVals(t'), dir);
  }

  lemma TableThin<V>(used: seq<bool>, names: seq<Text>, vals: seq<V>, used': seq<bool>, names': seq<Text>, vals': seq<V>, dir: Text)
    requires Slots(used, names, vals) && Slots(used', names', vals') && |used'| == |used| && DistinctNames(used, names)
    requires forall i :: 0 <= i < |used| ==> used'[i] == (used[i] && !Under(names[i], dir))
    requires forall i :: 0 <= i < |used| && used'[i] ==> names'[i] == names[i] && vals'[i] == vals[i]
    ensures Table(used', names', vals') == map p | p in Table(used, names, vals) && !Under(p, dir) :: Table(used, names, vals)[p]
  {
    hide Table, Find, Under;
    var old_, new_ := Table(used, names, vals), Table(used', names', vals');
    forall x ensures (x in new_ <==> x in old_ && !Under(x, dir)) && (x in new_ ==> x in old_ && new_[x] == old_[x]) {
      TableHas(used, names, vals, x);
      TableHas(used', names', vals', x);
      var k, k' := Find(used, names, x), Find(used', names', x);
      if k' >= 0 { FindIs(used, names, k'); }
    }
  }
}
