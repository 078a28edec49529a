/** When recursive delete succeeds: for root, exactly when every directory at or below
    the path lists all of its children. */
module RootDelete {
  import opened Words
  import opened Paths
  import opened Files
  import opened Tree
  import opened TreeRuns

  const ROOT_UID: int := 0

  ghost predicate LiveDir(t: Fs, p: Text)
    requires Shape(t)
  {
    Listed(t.dused, t.dname, p)
  }

  ghost predicate LiveFile(t: Fs, p: Text)
    requires Shape(t)
  {
    Listed(t.fused, t.fname, p)
  }

  ghost predicate ChildOf(p: Text, dir: Text) {
    Canon(p) && p != ROOT && ParentOf(p) == dir
  }

  /** What `fs_list_directory` finds to list, permissions aside. */
  function Entries(t: Fs, dir: Text): seq<Entry>
    requires Shape(t)
  {
    var dirs := ListDirs(t.dused, t.dname, dir, 1, 0);
    dirs.0 + ListFiles(t.fused, t.fname, dir, 0, dirs.1)
  }

  ghost predicate Shown(entries: seq<Entry>, dir: Text, p: Text) {
    exists i :: 0 <= i < |entries| && Child(dir, entries[i].name) == p
  }

  /** Does the listing of `dir` show every child? */
  ghost predicate Complete(t: Fs, dir: Text)
    requires Shape(t)
  {
    forall p :: (LiveDir(t, p) || LiveFile(t, p)) && ChildOf(p, dir) ==> Shown(Entries(t, dir), dir, p)
  }

  ghost predicate AllComplete(t: Fs, dir: Text)
    requires Shape(t)
  {
    forall q :: LiveDir(t, q) && Under(q, dir) ==> Complete(t, q)
  }

  // ------------------------------------------------------ what a listing shows

  /** Each entry stands for its own slot. */
  ghost predicate Sourced(used: seq<bool>, names: seq<Text>, dir: Text, i: nat, entries: seq<Entry>, isDir: bool)
    requires |used| == |names|
  {
    && (forall j :: 0 <= j < |entries| ==> entries[j].isDir == isDir && SlotFrom(used, names, i, Child(dir, entries[j].name)))
    && DistinctPaths(dir, entries)
  }

  ghost predicate SlotFrom(used: seq<bool>, names: seq<Text>, i: nat, p: Text)
    requires |used| == |names|
  {
    exists k :: i <= k < |names| && used[k] && names[k] == p
  }

  ghost predicate DistinctPaths(dir: Text, entries: seq<Entry>) {
    forall a, b :: 0 <= a < b < |entries| ==> Child(dir, entries[a].name) != Child(dir, entries[b].name)
  }

  lemma SourcedCons(used: seq<bool>, names: seq<Text>, dir: Text, i: nat, e: Entry, rest: seq<Entry>)
    requires |used| == |names| && i < |names| && used[i] && names[i] == Child(dir, e.name) && DistinctNames(used, names)
    requires Sourced(used, names, dir, i + 1, rest, e.isDir)
    ensures Sourced(used, names, dir, i, [e] + rest, e.isDir)
  {
    hide Child;
    var all := [e] + rest;
    forall j | 0 <= j < |all| ensures all[j].isDir == e.isDir && SlotFrom(used, names, i, Child(dir, all[j].name)) {
      if j > 0 { assert SlotFrom(used, names, i + 1, Child(dir, rest[j - 1].name)); }
    }
    forall a, b | 0 <= a < b < |all| ensures Child(dir, all[a].name) != Child(dir, all[b].name) {
      assert SlotFrom(used, names, i + 1, Child(dir, rest[b - 1].name));
    }
  }

  lemma SourcedFrom(used: seq<bool>, names: seq<Text>, dir: Text, i: nat, entries: seq<Entry>, isDir: bool)
    requires |used| == |names| && Sourced(used, names, dir, i + 1, entries, isDir)
    ensures Sourced(used, names, dir, i, entries, isDir)
  {
    hide Child;
    forall j | 0 <= j < |entries| ensures SlotFrom(used, names, i, Child(dir, entries[j].name)) {
      assert SlotFrom(used, names, i + 1, Child(dir, entries[j].name));
    }
  }

  lemma {:induction false} DirsSourced(used: seq<bool>, names: seq<Text>, dir: Text, i: nat, pos: nat)
    requires |used| == |names| && i <= |names| && AllCanon(used, names) && Canon(dir) && DistinctNames(used, names)
    ensures Sourced(used, names, dir, i, ListDirs(used, names, dir, i, pos).0, true)
    decreases |names| - i
  {
    hide Canon, ListName, Child, Sourced, DistinctNames;
    if i == |names| || pos >= LIST_CAP - 4 {
      SourcedNothing(used, names, dir, i, true);
    } else {
      var name := ListName(names[i], dir);
      DirsSourced(used, names, dir, i + 1, pos);
      DirsSourced(used, names, dir, i + 1, pos + |name| + 2);
      SourcedFrom(used, names, dir, i, ListDirs(used, names, dir, i + 1, pos).0, true);
      if used[i] && name != [] {
        ListNameGood(names[i], dir);
        SourcedCons(used, names, dir, i, Entry(name, true), ListDirs(used, names, dir, i + 1, pos + |name| + 2).0);
      }
    }
  }

  lemma {:induction false} FilesSourced(used: seq<bool>, names: seq<Text>, dir: Text, i: nat, pos: nat)
    requires |used| == |names| && i <= |names| && AllCanon(used, names) && Canon(dir) && DistinctNames(used, names)
    ensures Sourced(used, names, dir, i, ListFiles(used, names, dir, i, pos), false)
    decreases |names| - i
  {
    hide Canon, ListName, Child, Sourced, DistinctNames;
    if i == |names| || pos >= LIST_CAP - 4 {
      SourcedNothing(used, names, dir, i, false);
    } else {
      var name := ListName(names[i], dir);
      FilesSourced(used, names, dir, i + 1, pos);
      FilesSourced(used, names, dir, i + 1, pos + |name| + 1);
      SourcedFrom(used, names, dir, i, ListFiles(used, names, dir, i + 1, pos), false);
      if used[i] && name != [] {
        ListNameGood(names[i], dir);
        SourcedCons(used, names, dir, i, Entry(name, false), ListFiles(used, names, dir, i + 1, pos + |name| + 1));
      }
    }
  }

  lemma SourcedNothing(used: seq<bool>, names: seq<Text>, dir: Text, i: nat, isDir: bool)
    requires |used| == |names|
    ensures Sourced(used, names, dir, i, [], isDir)
  {
  }

  /** What is left of a listing: every entry is alive, as what it is listed as, and no path
      occurs twice. */
  ghost predicate Waiting(t: Fs, dir: Text, entries: seq<Entry>)
    requires Shape(t)
  {
    && (forall j :: 0 <= j < |entries| ==> Alive(t, Child(dir, entries[j].name), entries[j].isDir))
    && DistinctPaths(dir, entries)
  }

  ghost predicate Alive(t: Fs, p: Text, isDir: bool)
    requires Shape(t)
  {
    if isDir then LiveDir(t, p) else LiveFile(t, p)
  }

  /** Every child is listed at most once, and only when it is there. */
  lemma ListingOnce(t: Fs, dir: Text)
    requires TreeInv(t) && Canon(dir)
    ensures Shape(t) && Waiting(t, dir, Entries(t, dir))
  {
    TreeNames(t);
    hide TreeInv, Canon, Child, DistinctNames, AllCanon;
    var dirs := ListDirs(t.dused, t.dname, dir, 1, 0);
    var files := ListFiles(t.fused, t.fname, dir, 0, dirs.1);
    DirsSourced(t.dused, t.dname, dir, 1, 0);
    FilesSourced(t.fused, t.fname, dir, 0, dirs.1);
    JoinSourced(t, dir, dirs.0, files);
  }

  lemma TreeNames(t: Fs)
    requires TreeInv(t)
    ensures Shape(t) && AllCanon(t.dused, t.dname) && AllCanon(t.fused, t.fname)
    ensures DistinctNames(t.dused, t.dname) && DistinctNames(t.fused, t.fname)
    ensures forall p :: !(LiveDir(t, p) && LiveFile(t, p))
  {
    hide Canon;
  }

  lemma JoinSourced(t: Fs, dir: Text, dirs: seq<Entry>, files: seq<Entry>)
    requires Shape(t) && (forall p :: !(LiveDir(t, p) && LiveFile(t, p)))
    requires Sourced(t.dused, t.dname, dir, 1, dirs, true) && Sourced(t.fused, t.fname, dir, 0, files, false)
    ensures Waiting(t, dir, dirs + files)
  {
    hide Child;
    var all := dirs + files;
    forall j | 0 <= j < |all| ensures Alive(t, Child(dir, all[j].name), all[j].isDir) {
      if j < |dirs| {
        assert SlotFrom(t.dused, t.dname, 1, Child(dir, dirs[j].name));
      } else {
        assert SlotFrom(t.fused, t.fname, 0, Child(dir, files[j - |dirs|].name));
      }
    }
    forall a, b | 0 <= a < b < |all| ensures Child(dir, all[a].name) != Child(dir, all[b].name) {
      if a < |dirs| <= b {
        assert Alive(t, Child(dir, all[a].name), true) && Alive(t, Child(dir, all[b].name), false);
      } else if |dirs| <= a {
        assert all[a] == files[a - |dirs|] && all[b] == files[b - |dirs|];
      }
    }
  }

  // -------------------------------------------------------- when it is complete

  /** Bytes that suffice for the lines of the live slots from `i` on. */
  function LinesNeeded(used: seq<bool>, names: seq<Text>, i: nat): nat
    requires |used| == |names| && i <= |names|
    decreases |names| - i
  {
    if i == |names| then 0 else (if used[i] then |names[i]| + 2 else 0) + LinesNeeded(used, names, i + 1)
  }

  ghost predicate ShowsSlots(used: seq<bool>, names: seq<Text>, dir: Text, i: nat, entries: seq<Entry>)
    requires |used| == |names|
  {
    forall k :: i <= k < |names| && used[k] && ListName(names[k], dir) != [] ==> Shown(entries, dir, names[k])
  }

  lemma ShowsCons(used: seq<bool>, names: seq<Text>, dir: Text, i: nat, e: Entry, rest: seq<Entry>)
    requires |used| == |names| && i < |names| && names[i] == Child(dir, e.name) && ShowsSlots(used, names, dir, i + 1, rest)
    ensures ShowsSlots(used, names, dir, i, [e] + rest)
  {
    hide Child, ListName;
    var all := [e] + rest;
    forall k | i <= k < |names| && used[k] && ListName(names[k], dir) != [] ensures Shown(all, dir, names[k]) {
      if k == i {
        assert Child(dir, all[0].name) == names[i];
      } else {
        var j :| 0 <= j < |rest| && Child(dir, rest[j].name) == names[k];
        assert all[j + 1] == rest[j];
      }
    }
  }

  lemma {:induction false} DirsShown(used: seq<bool>, names: seq<Text>, dir: Text, i: nat, pos: nat)
    requires |used| == |names| && i <= |names| && AllCanon(used, names) && Canon(dir)
    requires pos + LinesNeeded(used, names, i) < LIST_CAP - 4
    ensures var r := ListDirs(used, names, dir, i, pos); ShowsSlots(used, names, dir, i, r.0) && r.1 <= pos + LinesNeeded(used, names, i)
    decreases |names| - i
  {
    hide Canon, Child;
    if i == |names| {
    } else {
      var name := ListName(names[i], dir);
      assert |name| <= |names[i]|;
      if used[i] && name != [] {
        ListNameGood(names[i], dir);
        DirsShown(used, names, dir, i + 1, pos + |name| + 2);
        ShowsCons(used, names, dir, i, Entry(name, true), ListDirs(used, names, dir, i + 1, pos + |name| + 2).0);
      } else {
        DirsShown(used, names, dir, i + 1, pos);
      }
      hide ListName;
    }
  }

  lemma {:induction false} FilesShown(used: seq<bool>, names: seq<Text>, dir: Text, i: nat, pos: nat)
    requires |used| == |names| && i <= |names| && AllCanon(used, names) && Canon(dir)
    requires pos + LinesNeeded(used, names, i) < LIST_CAP - 4
    ensures ShowsSlots(used, names, dir, i, ListFiles(used, names, dir, i, pos))
    decreases |names| - i
  {
    hide Canon, Child;
    if i == |names| {
    } else {
      var name := ListName(names[i], dir);
      assert |name| <= |names[i]|;
      if used[i] && name != [] {
        ListNameGood(names[i], dir);
        FilesShown(used, names, dir, i + 1, pos + |name| + 1);
        ShowsCons(used, names, dir, i, Entry(name, false), ListFiles(used, names, dir, i + 1, pos + |name| + 1));
      } else {
        FilesShown(used, names, dir, i + 1, pos);
      }
      hide ListName;
    }
  }

  lemma ChildListed(p: Text, dir: Text)
    requires ChildOf(p, dir) && Canon(dir)
    ensures ListName(p, dir) != []
  {
    CanonRoot();
    var cs := Components(p);
    JoinLast(cs);
    assert ProperName(cs[|cs| - 1]);
    if dir == ROOT {
      ParentText(p);
      assert cs[..|cs| - 1] == [] && Join(cs[..|cs| - 1]) == [];
      assert p == ROOT + cs[|cs| - 1] && p[1..] == cs[|cs| - 1];
    } else {
      ChildIsParent(p, dir);
    }
  }

  /** A listing shows every child when the lines of all live entries fit the buffer. */
  lemma RoomComplete(t: Fs, dir: Text)
    requires TreeInv(t) && Canon(dir)
    requires Shape(t) && LinesNeeded(t.dused, t.dname, 1) + LinesNeeded(t.fused, t.fname, 0) < LIST_CAP - 4
    ensures Complete(t, dir)
  {
    TreeNames(t);
    var dirs := ListDirs(t.dused, t.dname, dir, 1, 0);
    var files := ListFiles(t.fused, t.fname, dir, 0, dirs.1);
    assert t.dused[0] ==> t.dname[0] == ROOT;
    hide TreeInv, Canon, Child, ListName, AllCanon, DistinctNames, ParentOf;
    DirsShown(t.dused, t.dname, dir, 1, 0);
    FilesShown(t.fused, t.fname, dir, 0, dirs.1);
    forall p | (LiveDir(t, p) || LiveFile(t, p)) && ChildOf(p, dir) ensures Shown(dirs.0 + files, dir, p) {
      ChildListed(p, dir);
      if LiveDir(t, p) {
        assert Shown(dirs.0, dir, p);
        ShownMore(dirs.0, files, dir, p);
      } else {
        assert Shown(files, dir, p);
        ShownMore(dirs.0, files, dir, p);
      }
    }
  }

  lemma ShownMore(a: seq<Entry>, b: seq<Entry>, dir: Text, p: Text)
    requires Shown(a, dir, p) || Shown(b, dir, p)
    ensures Shown(a + b, dir, p)
  {
    hide Child;
    if Shown(a, dir, p) {
      var i :| 0 <= i < |a| && Child(dir, a[i].name) == p;
      assert (a + b)[i] == a[i];
    } else {
      var i :| 0 <= i < |b| && Child(dir, b[i].name) == p;
      assert (a + b)[|a| + i] == b[i];
    }
  }

  // --------------------------------------------------------- clearing a subtree

  /** `t'` is `t` without what lies at or below `p`. */
  ghost predicate Cleared(t: Fs, t': Fs, p: Text) {
    && Fewer(t, t')
    && (forall i :: 0 <= i < MAX_D && t.dused[i] && !Under(t.dname[i], p) ==> t'.dused[i])
    && (forall i :: 0 <= i < MAX_F && t.fused[i] && !Under(t.fname[i], p) ==> t'.fused[i])
    && !LiveDir(t', p) && !LiveFile(t', p)
  }

  lemma ClearedKeeps(t: Fs, t': Fs, p: Text, q: Text)
    requires Cleared(t, t', p)
    ensures Shape(t) && Shape(t')
    ensures LiveDir(t', q) ==> LiveDir(t, q)
    ensures LiveFile(t', q) ==> LiveFile(t, q)
    ensures !Under(q, p) ==> (LiveDir(t', q) <==> LiveDir(t, q)) && (LiveFile(t', q) <==> LiveFile(t, q))
  {
    hide Under;
  }

  lemma DeleteFileClears(t: Fs, uid: int, p: Text)
    requires TreeInv(t) && Canon(p) && LiveFile(t, p) && uid == ROOT_UID
    ensures DeleteFile(t, uid, p).1 == 0 && Cleared(t, DeleteFile(t, uid, p).0, p)
  {
    TreeNames(t);
    AbsOfCanon(t.cwd, p);
    CanonAbsolute(p);
    DeletesFewer(t, uid, p);
    hide TreeInv, AbsPath, Canon, AllCanon, Fewer;
    var t' := DeleteFile(t, uid, p).0;
    assert Under(p, p);
    hide Under;
    assert !LiveDir(t, p);
  }

  lemma RemovedClears(t: Fs, p: Text)
    requires Shape(t) && Canon(p)
    ensures Shape(Removed(t, p)) && Cleared(t, Removed(t, p), p)
  {
    assert Under(p, p);
    hide Under, Canon;
  }

  /** Two children of one directory have nothing below them in common. */
  lemma SiblingsApart(p: Text, q: Text, dir: Text, c: Text)
    requires ChildOf(p, dir) && ChildOf(q, dir) && p != q
    ensures !(Under(c, p) && Under(c, q))
  {
    ChildDepth(p, dir);
    ChildDepth(q, dir);
    assert Components(p) != Components(q);
  }

  lemma ChildDepth(p: Text, dir: Text)
    requires ChildOf(p, dir)
    ensures |Components(p)| == |Components(dir)| + 1 && Components(p)[..|Components(dir)|] == Components(dir)
  {
    CanonRoot();
    var cs := Components(p);
    assert cs != [];
    assert Proper(cs[..|cs| - 1]);
    ComponentsOfRender(cs[..|cs| - 1]);
  }

  /** The listing of a directory depends on its children only. */
  lemma {:induction false} SameDirs(used: seq<bool>, used': seq<bool>, names: seq<Text>, names': seq<Text>, dir: Text, i: nat, pos: nat)
    requires |used| == |names| == |used'| == |names'| && i <= |names| && SameChildren(used, names, used', names', dir)
    ensures ListDirs(used', names', dir, i, pos) == ListDirs(used, names, dir, i, pos)
    decreases |names| - i
  {
    hide ListName;
    if i == |names| {
    } else {
      SameDirs(used, used', names, names', dir, i + 1, pos);
      SameDirs(used, used', names, names', dir, i + 1, pos + |ListName(names[i], dir)| + 2);
    }
  }

  lemma {:induction false} SameFiles(used: seq<bool>, used': seq<bool>, names: seq<Text>, names': seq<Text>, dir: Text, i: nat, pos: nat)
    requires |used| == |names| == |used'| == |names'| && i <= |names| && SameChildren(used, names, used', names', dir)
    ensures ListFiles(used', names', dir, i, pos) == ListFiles(used, names, dir, i, pos)
    decreases |names| - i
  {
    hide ListName;
    if i == |names| {
    } else {
      SameFiles(used, used', names, names', dir, i + 1, pos);
      SameFiles(used, used', names, names', dir, i + 1, pos + |ListName(names[i], dir)| + 1);
    }
  }

  ghost predicate SameChildren(used: seq<bool>, names: seq<Text>, used': seq<bool>, names': seq<Text>, dir: Text)
    requires |used| == |names| == |used'| == |names'|
  {
    forall k :: 0 <= k < |names| ==>
      && (used'[k] ==> used[k] && names'[k] == names[k])
      && (used[k] && ListName(names[k], dir) != [] ==> used'[k])
  }

  lemma ClearedListing(t: Fs, t': Fs, p: Text, q: Text, dir: Text, d: Text)
    requires TreeInv(t) && Cleared(t, t', p) && ChildOf(p, dir) && ChildOf(q, dir) && p != q && Canon(d) && Under(d, q)
    ensures Shape(t) && Entries(t', d) == Entries(t, d) && (Complete(t', d) <==> Complete(t, d))
  {
    TreeNames(t);
    hide TreeInv, Canon, Under, ListName, ParentOf, DistinctNames, Child;
    forall c | Canon(c) && ChildOf(c, d) ensures !Under(c, p) {
      ChildUnder(c, d);
      UnderTrans(c, d, q);
      SiblingsApart(p, q, dir, c);
    }
    forall c | Canon(c) && ListName(c, d) != [] ensures !Under(c, p) { ListNameGood(c, d); }
    SameDirs(t.dused, t'.dused, t.dname, t'.dname, d, 1, 0);
    SameFiles(t.fused, t'.fused, t.fname, t'.fname, d, 0, ListDirs(t.dused, t.dname, d, 1, 0).1);
    forall c ensures LiveDir(t', c) ==> LiveDir(t, c) { ClearedKeeps(t, t', p, c); }
    forall c ensures LiveFile(t', c) ==> LiveFile(t, c) { ClearedKeeps(t, t', p, c); }
    forall c | ChildOf(c, d) ensures (LiveDir(t', c) <==> LiveDir(t, c)) && (LiveFile(t', c) <==> LiveFile(t, c)) {
      ClearedKeeps(t, t', p, c);
    }
    hide Cleared, LiveDir, LiveFile;
  }

  lemma UnderTrans(c: Text, d: Text, q: Text)
    requires Under(c, d) && Under(d, q)
    ensures Under(c, q)
  {
  }

  /** Clearing one child does not change which listings below another are complete. */
  lemma ClearedComplete(t: Fs, t': Fs, p: Text, q: Text, dir: Text)
    requires TreeInv(t) && Cleared(t, t', p) && ChildOf(p, dir) && ChildOf(q, dir) && p != q
    ensures Shape(t) && Shape(t') && (AllComplete(t', q) <==> AllComplete(t, q))
  {
    TreeNames(t);
    assert Shape(t');
    forall d | Under(d, q) && (LiveDir(t, d) || LiveDir(t', d))
      ensures (LiveDir(t', d) <==> LiveDir(t, d)) && (Complete(t', d) <==> Complete(t, d))
    {
      SiblingsApart(p, q, dir, d);
      ClearedKeeps(t, t', p, d);
      assert Canon(d);
      hide Cleared, Complete, LiveDir;
      ClearedListing(t, t', p, q, dir, d);
    }
  }

  // ------------------------------------------------------------- both directions

  /** What deleting one listed entry does, when it reports success. */
  lemma EntryClears(t: Fs, dir: Text, e: Entry)
    requires TreeInv(t) && Canon(dir) && Tidy(t, dir) && GoodEntry(dir, e) && Shape(t) && Alive(t, Child(dir, e.name), e.isDir)
    ensures var p := Child(dir, e.name);
      && ChildOf(p, dir) && Tidy(t, p) && |dir| < |p| <= PATH_MAX
      && var r := if e.isDir then DeleteRecursive(t, ROOT_UID, p) else DeleteFile(t, ROOT_UID, p);
      && TreeInv(r.0) && Shape(r.0) && Tidy(r.0, dir)
      && (!e.isDir ==> r.1 == 0)
      && (r.1 == 0 ==> Cleared(t, r.0, p))
  {
    EntryStep(t, ROOT_UID, dir, e);
    var p := Child(dir, e.name);
    var r := if e.isDir then DeleteRecursive(t, ROOT_UID, p) else DeleteFile(t, ROOT_UID, p);
    hide TreeInv, Canon, Tidy, Fewer, Cleared, DeleteRecursive, DeleteFile, ParentOf, Removed;
    TreeShape(r.0);
    FewerTidy(t, r.0, dir);
    if e.isDir {
      if r.1 == 0 {
        DeleteRecursiveExact(t, ROOT_UID, p);
        RemovedClears(t, p);
      }
    } else {
      DeleteFileClears(t, ROOT_UID, p);
    }
  }

  /** Every live child of `dir` is still waiting. */
  ghost predicate Covered(t: Fs, dir: Text, entries: seq<Entry>)
    requires Shape(t)
  {
    forall p :: (LiveDir(t, p) || LiveFile(t, p)) && ChildOf(p, dir) ==> Shown(entries, dir, p)
  }

  /** After the first entry is cleared, the others wait as before. */
  lemma StepWaiting(t: Fs, t': Fs, dir: Text, entries: seq<Entry>)
    requires TreeInv(t) && Shape(t) && Canon(dir) && entries != [] && GoodEntries(dir, entries) && Waiting(t, dir, entries)
    requires Cleared(t, t', Child(dir, entries[0].name)) && LiveDir(t, dir)
    ensures Shape(t') && GoodEntries(dir, entries[1..]) && Waiting(t', dir, entries[1..]) && LiveDir(t', dir)
    ensures Covered(t, dir, entries) ==> Covered(t', dir, entries[1..])
  {
    hide TreeInv, Canon, ParentOf, Child, Under, LiveDir, LiveFile, Plain, Cleared;
    var p, rest := Child(dir, entries[0].name), entries[1..];
    assert GoodEntry(dir, entries[0]);
    ParentShorter(p);
    ClearedKeeps(t, t', p, dir);
    forall j | 0 <= j < |rest| ensures GoodEntry(dir, rest[j]) && Alive(t', Child(dir, rest[j].name), rest[j].isDir) {
      var q := Child(dir, rest[j].name);
      assert GoodEntry(dir, entries[j + 1]) && Alive(t, Child(dir, entries[j + 1].name), entries[j + 1].isDir) && q != p;
      UnderSelf(q);
      SiblingsApart(p, q, dir, q);
      ClearedKeeps(t, t', p, q);
    }
    if Covered(t, dir, entries) { StepCovered(t, t', dir, entries); }
  }

  lemma StepCovered(t: Fs, t': Fs, dir: Text, entries: seq<Entry>)
    requires Shape(t) && entries != [] && Covered(t, dir, entries) && Cleared(t, t', Child(dir, entries[0].name))
    ensures Shape(t') && Covered(t', dir, entries[1..])
  {
    assert Shape(t') && !LiveDir(t', Child(dir, entries[0].name)) && !LiveFile(t', Child(dir, entries[0].name));
    hide Child, Under, LiveDir, LiveFile, ChildOf, Cleared;
    var p, rest := Child(dir, entries[0].name), entries[1..];
    forall q | (LiveDir(t', q) || LiveFile(t', q)) && ChildOf(q, dir) ensures Shown(rest, dir, q) {
      ClearedKeeps(t, t', p, q);
      var j :| 0 <= j < |entries| && Child(dir, entries[j].name) == q;
      assert rest[j - 1] == entries[j];
    }
  }

  lemma UnderSelf(p: Text)
    ensures Under(p, p)
  {
  }

  /** Success: when every listing on the way is complete, everything is deleted. */
  lemma {:induction false} CompleteDeletes(t: Fs, dir: Text)
    requires TreeInv(t) && Canon(dir) && dir != ROOT && Shape(t) && Tidy(t, dir) && LiveDir(t, dir) && AllComplete(t, dir)
    ensures DeleteRecursive(t, ROOT_UID, dir).1 == 0
    decreases PATH_MAX + 1 - |dir|, 1, 0
  {
    RootLists(t, dir);
    ListingOnce(t, dir);
    UnderSelf(dir);
    hide TreeInv, Canon, Tidy, ListDirectory, MayModifyParent, DirectoryExists, DeleteDirectory, GoodEntries;
    hide DeleteRecursive, DeleteEntries, ParseLines, Lines, Entries, Waiting, LiveDir, LiveFile;
    RecursiveCases(t, ROOT_UID, dir);
    var entries := Entries(t, dir);
    assert Covered(t, dir, entries);
    ChildrenComplete(t, dir, entries);
    EntriesDelete(t, dir, entries);
    NoneCovered(DeleteEntries(t, ROOT_UID, dir, entries).0, dir);
  }

  /** Root may do everything, so only existence counts. */
  lemma RootLists(t: Fs, dir: Text)
    requires TreeInv(t) && Shape(t) && Canon(dir) && LiveDir(t, dir)
    ensures MayModifyParent(t, ROOT_UID, dir) && DirectoryExists(t, dir)
    ensures ListDirectory(t, ROOT_UID, dir) == (0, Entries(t, dir))
  {
    AbsOfCanon(t.cwd, dir);
    CanonAbsolute(dir);
    hide AbsPath, ListDirs, ListFiles, Canon, TreeInv;
  }

  /** All listings below the listed subdirectories are complete. */
  ghost predicate BelowComplete(t: Fs, dir: Text, entries: seq<Entry>)
    requires Shape(t)
  {
    forall j :: 0 <= j < |entries| && entries[j].isDir ==> AllComplete(t, Child(dir, entries[j].name))
  }

  lemma ChildrenComplete(t: Fs, dir: Text, entries: seq<Entry>)
    requires Shape(t) && AllComplete(t, dir) && GoodEntries(dir, entries) && Canon(dir)
    ensures BelowComplete(t, dir, entries)
  {
    hide Complete, Canon, ParentOf, Child, LiveDir;
    forall j | 0 <= j < |entries| ensures AllComplete(t, Child(dir, entries[j].name)) {
      assert GoodEntry(dir, entries[j]);
      var p := Child(dir, entries[j].name);
      ChildUnder(p, dir);
      forall q | LiveDir(t, q) && Under(q, p) ensures Complete(t, q) { UnderTrans(q, p, dir); }
    }
  }

  /** With no child left, the last step succeeds. */
  lemma NoneCovered(t: Fs, dir: Text)
    requires TreeInv(t) && Shape(t) && Canon(dir) && dir != ROOT && LiveDir(t, dir) && Covered(t, dir, [])
    ensures DeleteDirectory(t, ROOT_UID, dir).1 == 0
  {
    AbsOfCanon(t.cwd, dir);
    CanonAbsolute(dir);
    TreeNames(t);
    hide AbsPath, TreeInv, Canon, ParentOf, ChildText, DistinctNames;
    forall i | 0 <= i < MAX_F && t.fused[i] ensures !ChildText(t.fname[i], dir) {
      assert LiveFile(t, t.fname[i]);
      ChildIsParent(t.fname[i], dir);
    }
    forall i | 0 <= i < MAX_D && t.dused[i] ensures !ChildText(t.dname[i], dir) {
      assert LiveDir(t, t.dname[i]);
      ChildIsParent(t.dname[i], dir);
    }
    assert !HasChild(t, dir);
    hide HasChild;
  }

  lemma {:induction false} EntriesDelete(t: Fs, dir: Text, entries: seq<Entry>)
    requires TreeInv(t) && Canon(dir) && Shape(t) && Tidy(t, dir) && GoodEntries(dir, entries)
    requires Waiting(t, dir, entries) && BelowComplete(t, dir, entries) && LiveDir(t, dir) && Covered(t, dir, entries)
    ensures var r := DeleteEntries(t, ROOT_UID, dir, entries);
      r.1 == 0 && Shape(r.0) && LiveDir(r.0, dir) && Covered(r.0, dir, [])
    decreases PATH_MAX + 1 - |dir|, 0, |entries|
  {
    hide TreeInv, Canon, Tidy, LiveDir, LiveFile, Covered, Child, GoodEntry, DeleteRecursive, DeleteFile, Under, Fewer, AllComplete, ParentOf, Cleared, Alive;
    if entries == [] {
    } else {
      var e := entries[0];
      EntryClears(t, dir, e);
      var p := Child(dir, e.name);
      if e.isDir {
        AliveDir(t, p);
        CompleteDeletes(t, p);
      }
      var r := if e.isDir then DeleteRecursive(t, ROOT_UID, p) else DeleteFile(t, ROOT_UID, p);
      StepWaiting(t, r.0, dir, entries);
      StepComplete(t, r.0, dir, entries);
      EntriesDelete(r.0, dir, entries[1..]);
    }
  }

  lemma AliveDir(t: Fs, p: Text)
    requires Shape(t) && Alive(t, p, true)
    ensures LiveDir(t, p)
  {
  }

  /** Clearing the first entry does not matter for the listings below the others. */
  lemma StepComplete(t: Fs, t': Fs, dir: Text, entries: seq<Entry>)
    requires TreeInv(t) && Shape(t) && entries != [] && GoodEntries(dir, entries) && DistinctPaths(dir, entries)
    requires Cleared(t, t', Child(dir, entries[0].name))
    ensures Shape(t')
    ensures forall j :: 0 <= j < |entries[1..]| ==>
      (AllComplete(t', Child(dir, entries[1..][j].name)) <==> AllComplete(t, Child(dir, entries[1..][j].name)))
  {
    assert Shape(t');
    hide TreeInv, Child, Canon, ParentOf, AllComplete, Cleared;
    var p := Child(dir, entries[0].name);
    assert GoodEntry(dir, entries[0]);
    forall j | 0 <= j < |entries[1..]|
      ensures AllComplete(t', Child(dir, entries[1..][j].name)) <==> AllComplete(t, Child(dir, entries[1..][j].name))
    {
      assert entries[1..][j] == entries[j + 1] && GoodEntry(dir, entries[j + 1]);
      ClearedComplete(t, t', p, Child(dir, entries[j + 1].name), dir);
    }
  }

  /** A child that is not listed stays, and then the last step fails. */
  lemma LeftOverFails(t: Fs, dir: Text, c: Text)
    requires TreeInv(t) && Shape(t) && Canon(dir) && dir != ROOT && ChildOf(c, dir) && (LiveDir(t, c) || LiveFile(t, c))
    ensures DeleteDirectory(t, ROOT_UID, dir).1 != 0
  {
    AbsOfCanon(t.cwd, dir);
    ChildIsParent(c, dir);
    ParentShorter(c);
    UnderSelf(c);
    hide AbsPath, TreeInv, Canon, ParentOf, ChildText, Under;
    assert HasChild(t, dir);
    hide HasChild;
  }

  /** The child of `dir` at or above a directory below it. */
  lemma {:induction false} TopChild(t: Fs, dir: Text, q: Text) returns (c: Text)
    requires TreeInv(t) && Shape(t) && Canon(dir) && dir != ROOT && LiveDir(t, q) && Under(q, dir) && q != dir
    ensures ChildOf(c, dir) && LiveDir(t, c) && Under(q, c)
    decreases |q|
  {
    assert Canon(q) && Rooted(t, q) by { hide Canon, ParentOf; }
    ProperDescendant(q, dir);
    ParentText(q);
    hide TreeInv, Canon;
    if ParentOf(q) == dir {
      UnderSelf(q);
      c := q;
    } else {
      c := TopChild(t, dir, ParentOf(q));
      ChildUnder(q, ParentOf(q));
      UnderTrans(q, ParentOf(q), c);
    }
  }

  /** Only then: success means that every listing on the way was complete. */
  lemma {:induction false} DeletedComplete(t: Fs, dir: Text)
    requires TreeInv(t) && Canon(dir) && dir != ROOT && Shape(t) && Tidy(t, dir) && LiveDir(t, dir)
    requires DeleteRecursive(t, ROOT_UID, dir).1 == 0
    ensures AllComplete(t, dir)
    decreases PATH_MAX + 1 - |dir|, 1, 0
  {
    RootLists(t, dir);
    ListingOnce(t, dir);
    TreeNames(t);
    hide TreeInv, Canon, Tidy, ListDirectory, MayModifyParent, DirectoryExists, DeleteDirectory, GoodEntries, ParentOf, DistinctNames, AllCanon;
    hide DeleteRecursive, DeleteEntries, ParseLines, Lines, Entries, LiveDir, LiveFile, Child, Under;
    RecursiveCases(t, ROOT_UID, dir);
    var entries := Entries(t, dir);
    EntriesOnly(t, dir, entries);
    var t' := DeleteEntries(t, ROOT_UID, dir, entries).0;
    forall c | (LiveDir(t, c) || LiveFile(t, c)) && ChildOf(c, dir) ensures Shown(entries, dir, c) {
      if LiveDir(t', c) || LiveFile(t', c) { LeftOverFails(t', dir, c); }
    }
    forall q | LiveDir(t, q) && Under(q, dir) ensures Complete(t, q) {
      if q != dir {
        var c := TopChild(t, dir, q);
        var j :| 0 <= j < |entries| && Child(dir, entries[j].name) == c;
        assert Alive(t, c, entries[j].isDir);
        assert AllComplete(t, c);
      }
    }
  }

  lemma {:induction false} EntriesOnly(t: Fs, dir: Text, entries: seq<Entry>)
    requires TreeInv(t) && Canon(dir) && Shape(t) && Tidy(t, dir) && GoodEntries(dir, entries)
    requires Waiting(t, dir, entries) && LiveDir(t, dir) && DeleteEntries(t, ROOT_UID, dir, entries).1 == 0
    ensures BelowComplete(t, dir, entries)
    ensures var t' := DeleteEntries(t, ROOT_UID, dir, entries).0;
      Shape(t') && forall c :: ChildOf(c, dir) && !Shown(entries, dir, c) ==> (LiveDir(t, c) ==> LiveDir(t', c)) && (LiveFile(t, c) ==> LiveFile(t', c))
    decreases PATH_MAX + 1 - |dir|, 0, |entries|
  {
    hide TreeInv, Canon, Tidy, LiveDir, LiveFile, Child, GoodEntry, DeleteRecursive, DeleteFile, Under, Fewer, AllComplete, ParentOf, Cleared, Alive;
    if entries == [] {
    } else {
      var e, rest := entries[0], entries[1..];
      EntryClears(t, dir, e);
      var p := Child(dir, e.name);
      var r := if e.isDir then DeleteRecursive(t, ROOT_UID, p) else DeleteFile(t, ROOT_UID, p);
      if e.isDir {
        AliveDir(t, p);
        DeletedComplete(t, p);
      }
      StepWaiting(t, r.0, dir, entries);
      StepComplete(t, r.0, dir, entries);
      EntriesOnly(r.0, dir, rest);
      forall j | 0 <= j < |entries| && entries[j].isDir ensures AllComplete(t, Child(dir, entries[j].name)) {
        if j > 0 { assert rest[j - 1] == entries[j]; }
      }
      forall c | ChildOf(c, dir) && !Shown(entries, dir, c)
        ensures !Shown(rest, dir, c) && (LiveDir(t, c) ==> LiveDir(r.0, c)) && (LiveFile(t, c) ==> LiveFile(r.0, c))
      {
        NotShown(entries, dir, c);
        UnderSelf(c);
        SiblingsApart(p, c, dir, c);
        ClearedKeeps(t, r.0, p, c);
      }
    }
  }

  lemma NotShown(entries: seq<Entry>, dir: Text, c: Text)
    requires entries != [] && !Shown(entries, dir, c)
    ensures Child(dir, entries[0].name) != c && !Shown(entries[1..], dir, c)
  {
    hide Child;
    forall j | 0 <= j < |entries[1..]| ensures Child(dir, entries[1..][j].name) != c {
      assert entries[1..][j] == entries[j + 1];
    }
  }

  /** Root's recursive delete of a tidy directory succeeds if and only if every directory at
      or below it lists all of its children; in particular when the lines of all live
      entries fit the listing buffer. */
  lemma RootDeletesExactly(t: Fs, dir: Text)
    requires TreeInv(t) && Canon(dir) && dir != ROOT && Shape(t) && Tidy(t, dir) && LiveDir(t, dir)
    ensures DeleteRecursive(t, ROOT_UID, dir).1 == 0 <==> AllComplete(t, dir)
    ensures LinesNeeded(t.dused, t.dname, 1) + LinesNeeded(t.fused, t.fname, 0) < LIST_CAP - 4 ==> AllComplete(t, dir)
  {
    TreeNames(t);
    hide DeleteRecursive, Complete, Tidy, Under;
    if AllComplete(t, dir) { CompleteDeletes(t, dir); }
    if DeleteRecursive(t, ROOT_UID, dir).1 == 0 { DeletedComplete(t, dir); }
    if LinesNeeded(t.dused, t.dname, 1) + LinesNeeded(t.fused, t.fname, 0) < LIST_CAP - 4 {
      forall q | LiveDir(t, q) && Under(q, dir) ensures Complete(t, q) {
        assert Canon(q) by { hide Canon; }
        RoomComplete(t, q);
      }
    }
  }
}
