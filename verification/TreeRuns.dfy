/** Every operation keeps the tree invariant; recursive delete removes exactly one
    subtree. */
module TreeRuns {
  import opened Words
  import opened Paths
  import opened Files
  import opened Tree

  /** The path resolves to a canonical one, which it does whenever it survives uncut. */
  ghost predicate Fits(t: Fs, path: Text) {
    Canon(AbsPath(t.cwd, path))
  }

  lemma ParentIsRooted(t: Fs, full: Text)
    requires TreeInv(t) && Canon(full) && ParentExists(t, full)
    ensures Rooted(t, full)
  {
    CanonRoot();
    if full != ROOT {
      ParentText(full);
      if Cut(full) > 1 {
        AbsOfCanon(t.cwd, ParentOf(full));
      }
    }
  }

  lemma StillListed(used: seq<bool>, names: seq<Text>, used': seq<bool>, names': seq<Text>, p: Text, i: nat)
    requires |used| == |names| == |used'| == |names'| && i < |names|
    requires Listed(used, names, p) && (used[i] ==> names[i] != p)
    requires forall j :: 0 <= j < |names| && j != i ==> used'[j] == used[j] && names'[j] == names[j]
    ensures Listed(used', names', p)
  {
  }

  lemma AddDirKeeps(t: Fs, uid: int, i: nat, full: Text)
    requires TreeInv(t) && 0 < i < MAX_D && !t.dused[i] && Canon(full) && Rooted(t, full)
    requires Find(t.dused, t.dname, full) == -1 && Find(t.fused, t.fname, full) == -1
    ensures TreeInv(AddDir(t, uid, i, full))
  {
    hide Canon, ParentOf;
    var t' := AddDir(t, uid, i, full);
    forall p | Rooted(t, p) ensures Rooted(t', p) {
      if ParentOf(p) != ROOT {
        StillListed(t.dused, t.dname, t'.dused, t'.dname, ParentOf(p), i);
      }
    }
  }

  lemma AddFileKeeps(t: Fs, uid: int, i: nat, full: Text)
    requires TreeInv(t) && i < MAX_F && !t.fused[i] && Canon(full) && Rooted(t, full)
    requires Find(t.dused, t.dname, full) == -1 && Find(t.fused, t.fname, full) == -1
    ensures TreeInv(AddFile(t, uid, i, full))
  {
  }

  lemma DropFileKeeps(t: Fs, i: nat)
    requires TreeInv(t) && i < MAX_F
    ensures TreeInv(DropFile(t, i)) && TreeInv(RollBack(t, i))
  {
  }

  /** No live entry has `dir` as its parent. */
  ghost predicate Childless(t: Fs, dir: Text)
    requires Shape(t)
  {
    && (forall i :: 0 <= i < MAX_F && t.fused[i] && t.fname[i] != ROOT ==> ParentOf(t.fname[i]) != dir)
    && (forall i :: 0 <= i < MAX_D && t.dused[i] && t.dname[i] != ROOT ==> ParentOf(t.dname[i]) != dir)
  }

  lemma DropDirKeeps(t: Fs, i: nat)
    requires TreeInv(t) && i < MAX_D && t.dused[i]
    requires t.dname[i] == ROOT || Childless(t, t.dname[i])
    ensures TreeInv(DropDir(t, i))
  {
    CanonRoot();
    hide Canon, ParentOf;
    var t' := DropDir(t, i);
    forall p | Rooted(t, p) && ParentOf(p) != ROOT && ParentOf(p) != t.dname[i] ensures Rooted(t', p) {
      StillListed(t.dused, t.dname, t'.dused, t'.dname, ParentOf(p), i);
    }
    assert forall j :: 0 <= j < MAX_D && t'.dused[j] ==> Rooted(t, t.dname[j]);
    assert forall j :: 0 <= j < MAX_F && t'.fused[j] ==> Rooted(t, t.fname[j]);
  }

  lemma NoChildMeansChildless(t: Fs, dir: Text)
    requires TreeInv(t) && Canon(dir) && dir != ROOT && !HasChild(t, dir)
    ensures Childless(t, dir)
  {
    forall i | 0 <= i < MAX_F && t.fused[i] && t.fname[i] != ROOT ensures ParentOf(t.fname[i]) != dir {
      ChildIsParent(t.fname[i], dir);
    }
    forall i | 0 <= i < MAX_D && t.dused[i] && t.dname[i] != ROOT ensures ParentOf(t.dname[i]) != dir {
      ChildIsParent(t.dname[i], dir);
    }
  }

  // ------------------------------------------------------- single operations

  /** Creating a directory keeps the tree exactly when nothing is made or the path comes
      out canonical. */
  lemma CreateDirectoryKeeps(t: Fs, uid: int, path: Text)
    requires TreeInv(t)
    ensures TreeInv(CreateDirectory(t, uid, path).0) <==> CreateDirectory(t, uid, path).0 == t || Fits(t, path)
  {
    hide MayModifyParent, AbsPath, Canon, ParentExists;
    var full, r := AbsPath(t.cwd, path), CreateDirectory(t, uid, path);
    if r.1 == 0 {
      var i := Unused(t.dused, 1);
      assert r.0.dused[i] && r.0.dname[i] == full;
      if Canon(full) {
        ParentIsRooted(t, full);
        AddDirKeeps(t, uid, i, full);
      }
    }
  }

  lemma CreateFileKeeps(t: Fs, uid: int, path: Text)
    requires TreeInv(t)
    ensures TreeInv(CreateFile(t, uid, path).0) <==> CreateFile(t, uid, path).0 == t || Fits(t, path)
  {
    hide MayModifyParent, AbsPath, Canon, ParentExists;
    var full, r := AbsPath(t.cwd, path), CreateFile(t, uid, path);
    if r.0 != t {
      var i := Unused(t.fused, 0);
      assert r.0.fused[i] && r.0.fname[i] == full;
      if Canon(full) {
        ParentIsRooted(t, full);
        AddFileKeeps(t, uid, i, full);
      }
    }
  }

  lemma DeleteFileKeeps(t: Fs, uid: int, path: Text)
    requires TreeInv(t)
    ensures TreeInv(DeleteFile(t, uid, path).0)
  {
    var i := Find(t.fused, t.fname, AbsPath(t.cwd, path));
    if i >= 0 { DropFileKeeps(t, i); }
    hide TreeInv, AbsPath, MayModifyParent;
  }

  lemma DeleteDirectoryKeeps(t: Fs, uid: int, path: Text)
    requires TreeInv(t)
    ensures TreeInv(DeleteDirectory(t, uid, path).0)
  {
    hide MayModifyParent, AbsPath, Canon, HasChild;
    var full := AbsPath(t.cwd, path);
    if DeleteDirectory(t, uid, path).1 == 0 {
      assert Canon(full);
      if full != ROOT { NoChildMeansChildless(t, full); }
      DropDirKeeps(t, Find(t.dused, t.dname, full));
    }
  }

  lemma WriteKeeps(t: Fs, i: nat, bytes: seq<byte>)
    requires TreeInv(t) && i < MAX_F
    ensures TreeInv(t.(data := t.data[i := bytes]))
  {
  }

  lemma WriteFileKeeps(t: Fs, uid: int, path: Text, bytes: seq<byte>, room: bool)
    requires TreeInv(t) && Fits(t, path)
    ensures TreeInv(WriteFile(t, uid, path, bytes, room).0)
  {
    CreateFileKeeps(t, uid, path);
    hide TreeInv, AbsPath, Canon, CreateFile, Allows;
    var full := AbsPath(t.cwd, path);
    var at := Find(t.fused, t.fname, full);
    var t1 := if at >= 0 then t else CreateFile(t, uid, path).0;
    var i := Find(t1.fused, t1.fname, full);
    if i >= 0 {
      DropFileKeeps(t1, i);
      WriteKeeps(t1, i, bytes);
    }
  }

  lemma AppendFileKeeps(t: Fs, uid: int, path: Text, bytes: seq<byte>, room: bool)
    requires TreeInv(t) && Fits(t, path)
    ensures TreeInv(AppendFile(t, uid, path, bytes, room).0)
  {
    CreateFileKeeps(t, uid, path);
    hide TreeInv, AbsPath, Canon, CreateFile, Allows;
    var full := AbsPath(t.cwd, path);
    var at := Find(t.fused, t.fname, full);
    var t1 := if at >= 0 then t else CreateFile(t, uid, path).0;
    var i := Find(t1.fused, t1.fname, full);
    if i >= 0 {
      WriteKeeps(t1, i, t1.data[i] + bytes);
    }
  }

  lemma ChangeDirectoryKeeps(t: Fs, uid: int, path: Text)
    requires TreeInv(t)
    ensures TreeInv(ChangeDirectory(t, uid, path).0)
  {
    hide AbsPath, Canon, ParentOf;
    CanonRoot();
  }

  // --------------------------------------------------------- recursive delete

  datatype Entry = Entry(name: Text, isDir: bool)

  const LIST_CAP: nat := 16384

  /** The name a table entry gets in the listing of `dir`, or nothing. */
  function ListName(p: Text, dir: Text): Text {
    if |p| <= |dir| || p[..|dir|] != dir then []
    else if dir == ROOT then (if SLASH in p[1..] then [] else p[1..])
    else if p[|dir|] != SLASH || SLASH in p[|dir| + 1..] then [] else p[|dir| + 1..]
  }

  /** The directory half of the listing, from slot i on, with `pos` bytes written. */
  function ListDirs(used: seq<bool>, names: seq<Text>, dir: Text, i: nat, pos: nat): (seq<Entry>, nat)
    requires |used| == |names| && i <= |names|
    decreases |names| - i
  {
    if i == |names| || pos >= LIST_CAP - 4 then ([], pos)
    else
      var name := ListName(names[i], dir);
      if !used[i] || name == [] || pos + |name| + 3 >= LIST_CAP then ListDirs(used, names, dir, i + 1, pos)
      else
        var rest := ListDirs(used, names, dir, i + 1, pos + |name| + 2);
        ([Entry(name, true)] + rest.0, rest.1)
  }

  function ListFiles(used: seq<bool>, names: seq<Text>, dir: Text, i: nat, pos: nat): seq<Entry>
    requires |used| == |names| && i <= |names|
    decreases |names| - i
  {
    if i == |names| || pos >= LIST_CAP - 4 then []
    else
      var name := ListName(names[i], dir);
      if !used[i] || name == [] || pos + |name| + 2 >= LIST_CAP then ListFiles(used, names, dir, i + 1, pos)
      else [Entry(name, false)] + ListFiles(used, names, dir, i + 1, pos + |name| + 1)
  }

  /** `fs_list_directory` of a canonical path: an error code or the entries that fit. */
  function ListDirectory(t: Fs, uid: int, dir: Text): (int, seq<Entry>)
    requires Shape(t)
  {
    var d := Find(t.dused, t.dname, dir);
    if !DirectoryExists(t, dir) then (-1, [])
    else if d >= 0 && !Allows(uid, t.dmode[d], t.downer[d], READ) then (-2, [])
    else
      var dirs := ListDirs(t.dused, t.dname, dir, 1, 0);
      (0, dirs.0 + ListFiles(t.fused, t.fname, dir, 0, dirs.1))
  }

  function Child(dir: Text, name: Text): Text {
    if dir == ROOT then ROOT + name else dir + ROOT + name
  }

  // ------------------------------------------------- the listing as buffer text

  const NEWLINE: byte := 10
  const LINE_MAX: nat := 255

  /** What `fs_list_directory` writes: a line per entry, directories with a slash. */
  function Lines(entries: seq<Entry>): Text {
    if entries == [] then [] else Line(entries[0]) + [NEWLINE] + Lines(entries[1..])
  }

  function Line(e: Entry): Text {
    if e.isDir then e.name + ROOT else e.name
  }

  function LineLength(s: Text): (k: nat)
    ensures k <= |s| && NEWLINE !in s[..k] && (k < |s| ==> s[k] == NEWLINE)
  {
    if s == [] || s[0] == NEWLINE then 0 else 1 + LineLength(s[1..])
  }

  /** What the loop of `fs_delete_directory_recursive` reads back, in lines of at most 255. */
  function ParseLines(s: Text): seq<Entry>
    decreases |s|
  {
    if s == [] then []
    else
      var k := Min(LineLength(s), LINE_MAX);
      var rest := if k < |s| && s[k] == NEWLINE then s[k + 1..] else s[k..];
      ParseLine(s[..k]) + ParseLines(rest)
  }

  function ParseLine(line: Text): seq<Entry> {
    var k := |line|;
    if k == 0 then []
    else if line[k - 1] == SLASH then [Entry(line[..k - 1], true)]
    else [Entry(line, false)]
  }

  /** A name as it stands in the tables: one component of bounded length. */
  ghost predicate Named(e: Entry) {
    e.name != [] && SLASH !in e.name && |Line(e)| <= LINE_MAX
  }

  ghost predicate Plain(e: Entry) {
    Named(e) && NEWLINE !in e.name
  }

  lemma {:induction false} LineLengthIs(line: Text, rest: Text)
    requires NEWLINE !in line
    ensures LineLength(line + [NEWLINE] + rest) == |line|
  {
    var s := line + [NEWLINE] + rest;
    if line == [] {
    } else {
      assert s[1..] == line[1..] + [NEWLINE] + rest;
      LineLengthIs(line[1..], rest);
    }
  }

  lemma ParseFirst(line: Text, rest: Text)
    requires NEWLINE !in line && |line| <= LINE_MAX
    ensures ParseLines(line + [NEWLINE] + rest) == ParseLine(line) + ParseLines(rest)
  {
    hide LineLength, ParseLine;
    var s := line + [NEWLINE] + rest;
    LineLengthIs(line, rest);
    assert s[..|line|] == line && s[|line|] == NEWLINE && s[|line| + 1..] == rest;
  }

  lemma {:induction false} ListingRoundTrip(entries: seq<Entry>)
    requires forall i :: 0 <= i < |entries| ==> Plain(entries[i])
    ensures ParseLines(Lines(entries)) == entries
  {
    if entries == [] {
    } else {
      var e := entries[0];
      assert Plain(e) && NEWLINE !in Line(e);
      ParseFirst(Line(e), Lines(entries[1..]));
      assert e.isDir ==> Line(e)[..|e.name|] == e.name;
      ListingRoundTrip(entries[1..]);
      hide ParseLines, Lines;
    }
  }

  lemma {:induction false} ParsedPlain(s: Text)
    ensures forall e :: e in ParseLines(s) ==> NEWLINE !in e.name
    decreases |s|
  {
    if s == [] {
    } else {
      var k := Min(LineLength(s), LINE_MAX);
      assert NEWLINE !in s[..LineLength(s)][..k];
      assert s[..k] == s[..LineLength(s)][..k];
      ParsedPlain(if k < |s| && s[k] == NEWLINE then s[k + 1..] else s[k..]);
    }
  }

  /** The deleter reads back the entries the lister wrote exactly when no name contains
      a newline. */
  lemma ListingExact(entries: seq<Entry>)
    requires forall i :: 0 <= i < |entries| ==> Named(entries[i])
    ensures ParseLines(Lines(entries)) == entries <==> forall i :: 0 <= i < |entries| ==> NEWLINE !in entries[i].name
  {
    hide ParseLines, Lines;
    ParsedPlain(Lines(entries));
    if forall i :: 0 <= i < |entries| ==> NEWLINE !in entries[i].name {
      assert forall i :: 0 <= i < |entries| ==> Plain(entries[i]);
      ListingRoundTrip(entries);
    }
  }

  lemma DotDotIsParent(cwd: Text, dir: Text)
    requires Canon(dir) && dir != ROOT && |dir| + 3 <= PATH_MAX
    ensures AbsPath(cwd, Child(dir, [DOT, DOT])) == ParentOf(dir)
  {
    hide AbsPath, FoldStack, Components;
    var cs, up := Components(dir), [DOT, DOT];
    var p := Child(dir, up);
    CanonRoot();
    JoinPush(cs, up);
    assert Paths.Clean(cs + [up]) by { assert forall i :: 0 <= i < |cs| ==> ProperName(cs[i]); }
    ComponentsOfClean(cs + [up]);
    assert p == Join(cs + [up]) && Combine(cwd, p) == p == Combine(ROOT, p);
    AbsPathIsCanonical(ROOT, p);
    AbsoluteAnywhere(cwd, ROOT, p);
    FoldThenUp([], cs);
    assert [] + cs == cs;
  }

  lemma AbsoluteAnywhere(cwd: Text, cwd': Text, p: Text)
    requires Combine(cwd, p) == Combine(cwd', p)
    ensures AbsPath(cwd, p) == AbsPath(cwd', p)
  {
  }

  lemma {:induction false} FoldThenUp(stack: seq<Text>, cs: seq<Text>)
    requires Proper(cs) && |stack| + |cs| <= DEPTH_MAX
    ensures FoldStack(stack, cs + [[DOT, DOT]]) == StepStack(stack + cs, [DOT, DOT])
    decreases cs
  {
    var up: seq<Text> := [[DOT, DOT]];
    if cs == [] {
      assert cs + up == up && up[1..] == [] && stack + cs == stack;
      assert FoldStack(stack, up) == FoldStack(StepStack(stack, up[0]), up[1..]);
    } else {
      assert ProperName(cs[0]);
      assert (cs + up)[1..] == cs[1..] + up && stack + [cs[0]] + cs[1..] == stack + cs;
      FoldThenUp(stack + [cs[0]], cs[1..]);
    }
  }

  /** Why a directory must be tidy: a subdirectory called "x", newline, ".." is a name like
      any other, but its line is read back as a file "x" and a directory "..", and that
      path resolves to the parent of the directory being deleted. */
  lemma NewlineEscapes(cwd: Text, dir: Text, x: Text)
    requires Canon(dir) && dir != ROOT && x != [] && SLASH !in x && NEWLINE !in x && |dir| + |x| + 4 <= PATH_MAX
    requires |Components(dir)| < DEPTH_MAX
    ensures var e := Entry(x + [NEWLINE, DOT, DOT], true);
      && Canon(Child(dir, e.name)) && ParentOf(Child(dir, e.name)) == dir
      && ParseLines(Lines([e])) == [Entry(x, false), Entry([DOT, DOT], true)]
    ensures AbsPath(cwd, Child(dir, [DOT, DOT])) == ParentOf(dir) && !Under(ParentOf(dir), dir)
  {
    hide Canon, ParentOf, AbsPath, Under, Child, ParseLines, Lines;
    NewChild(dir, x + [NEWLINE, DOT, DOT]);
    DotDotIsParent(cwd, dir);
    ParentShorter(dir);
    Misread(x);
  }

  lemma Misread(x: Text)
    requires x != [] && SLASH !in x && NEWLINE !in x && |x| <= LINE_MAX
    ensures ParseLines(Lines([Entry(x + [NEWLINE, DOT, DOT], true)])) == [Entry(x, false), Entry([DOT, DOT], true)]
  {
    hide ParseLines, LineLength;
    var e := Entry(x + [NEWLINE, DOT, DOT], true);
    var last: Text := [DOT, DOT, SLASH];
    var rest := last + [NEWLINE] + [];
    assert Lines([e][1..]) == [];
    assert Lines([e]) == x + [NEWLINE] + rest;
    ParseFirst(x, rest);
    ParseFirst(last, []);
    ParseEnd();
    assert last[..2] == [DOT, DOT] && ParseLine(last) == [Entry([DOT, DOT], true)];
    assert x[|x| - 1] in x;
  }

  lemma ParseEnd()
    ensures ParseLines([]) == []
  {
  }

  lemma NewChild(dir: Text, name: Text)
    requires Canon(dir) && dir != ROOT && ProperName(name) && |dir| + 1 + |name| <= PATH_MAX && |Components(dir)| < DEPTH_MAX
    ensures Canon(Child(dir, name)) && ParentOf(Child(dir, name)) == dir
  {
    var cs := Components(dir);
    CanonRoot();
    JoinPush(cs, name);
    assert Proper(cs + [name]);
    ComponentsOfRender(cs + [name]);
    assert (cs + [name])[..|cs|] == cs;
    hide Components;
  }

  lemma ParentShorter(dir: Text)
    requires Canon(dir) && dir != ROOT
    ensures !Under(ParentOf(dir), dir)
  {
    var cs := Components(dir);
    CanonRoot();
    assert cs != [];
    if |cs| > 1 {
      assert Proper(cs[..|cs| - 1]);
      ComponentsOfRender(cs[..|cs| - 1]);
    }
  }

  /** Below `dir` no live name contains a newline. */
  ghost predicate Tidy(t: Fs, dir: Text)
    requires Shape(t)
  {
    TidyTable(t.dused, t.dname, dir) && TidyTable(t.fused, t.fname, dir)
  }

  ghost predicate TidyTable(used: seq<bool>, names: seq<Text>, dir: Text)
    requires |used| == |names|
  {
    forall i :: 0 <= i < |names| && used[i] && Under(names[i], dir) ==> TidyBelow(names[i], dir)
  }

  ghost predicate TidyBelow(p: Text, dir: Text) {
    NEWLINE !in p[Min(|dir|, |p|)..]
  }

  ghost predicate GoodEntries(dir: Text, entries: seq<Entry>) {
    forall i :: 0 <= i < |entries| ==> GoodEntry(dir, entries[i])
  }

  ghost predicate GoodEntry(dir: Text, e: Entry) {
    var p := Child(dir, e.name);
    Canon(p) && p != ROOT && ParentOf(p) == dir && |p| > |dir| && Plain(e)
  }

  lemma ListNameGood(p: Text, dir: Text)
    requires Canon(p) && Canon(dir) && ListName(p, dir) != []
    ensures Child(dir, ListName(p, dir)) == p && p != ROOT && ParentOf(p) == dir && |p| > |dir| && Under(p, dir)
    ensures SLASH !in ListName(p, dir) && |ListName(p, dir)| < LINE_MAX
    ensures TidyBelow(p, dir) ==> NEWLINE !in ListName(p, dir)
  {
    var name := ListName(p, dir);
    CanonRoot();
    if dir == ROOT {
      assert p == ROOT + name;
      CutAppend([], name);
      assert [] + ROOT + name == p;
      ParentText(p);
    } else {
      assert p == dir + ROOT + name;
      ChildIsParent(p, dir);
      assert name == p[|dir|..][1..];
    }
    ChildUnder(p, dir);
  }

  ghost predicate AllCanon(used: seq<bool>, names: seq<Text>)
    requires |used| == |names|
  {
    forall i :: 0 <= i < |names| && used[i] ==> Canon(names[i])
  }

  lemma {:induction false} ListDirsGood(used: seq<bool>, names: seq<Text>, dir: Text, i: nat, pos: nat)
    requires |used| == |names| && i <= |names| && AllCanon(used, names) && Canon(dir) && TidyTable(used, names, dir)
    ensures GoodEntries(dir, ListDirs(used, names, dir, i, pos).0)
    decreases |names| - i
  {
    hide Canon, ListName, ParentOf, Child, Under, TidyBelow;
    if i < |names| && pos < LIST_CAP - 4 {
      var name := ListName(names[i], dir);
      ListDirsGood(used, names, dir, i + 1, pos);
      ListDirsGood(used, names, dir, i + 1, pos + |name| + 2);
      if used[i] && name != [] { ListNameGood(names[i], dir); }
    }
  }

  lemma {:induction false} ListFilesGood(used: seq<bool>, names: seq<Text>, dir: Text, i: nat, pos: nat)
    requires |used| == |names| && i <= |names| && AllCanon(used, names) && Canon(dir) && TidyTable(used, names, dir)
    ensures GoodEntries(dir, ListFiles(used, names, dir, i, pos))
    decreases |names| - i
  {
    hide Canon, ListName, ParentOf, Child, Under, TidyBelow;
    if i < |names| && pos < LIST_CAP - 4 {
      var name := ListName(names[i], dir);
      ListFilesGood(used, names, dir, i + 1, pos);
      ListFilesGood(used, names, dir, i + 1, pos + |name| + 1);
      if used[i] && name != [] { ListNameGood(names[i], dir); }
    }
  }

  /** What a tidy directory lists, the deleter reads back, and it names children of it. */
  lemma ListingGood(t: Fs, uid: int, dir: Text)
    requires TreeInv(t) && Canon(dir) && Tidy(t, dir)
    ensures GoodEntries(dir, ListDirectory(t, uid, dir).1)
    ensures ParseLines(Lines(ListDirectory(t, uid, dir).1)) == ListDirectory(t, uid, dir).1
  {
    hide Canon, Child, GoodEntry, TidyTable, ParseLines, Lines;
    ListDirsGood(t.dused, t.dname, dir, 1, 0);
    ListFilesGood(t.fused, t.fname, dir, 0, ListDirs(t.dused, t.dname, dir, 1, 0).1);
    EntriesReadBack(dir, ListDirectory(t, uid, dir).1);
  }

  lemma EntriesReadBack(dir: Text, entries: seq<Entry>)
    requires GoodEntries(dir, entries)
    ensures ParseLines(Lines(entries)) == entries
  {
    forall i | 0 <= i < |entries| ensures Plain(entries[i]) { assert GoodEntry(dir, entries[i]); }
    ListingRoundTrip(entries);
  }

  /** Every live entry of `t'` is one of `t`, in the same slot. */
  ghost predicate Fewer(t: Fs, t': Fs) {
    && Shape(t) && Shape(t')
    && (forall i :: 0 <= i < MAX_D && t'.dused[i] ==> t.dused[i] && t'.dname[i] == t.dname[i])
    && (forall i :: 0 <= i < MAX_F && t'.fused[i] ==> t.fused[i] && t'.fname[i] == t.fname[i])
  }

  lemma FewerTidy(t: Fs, t': Fs, dir: Text)
    requires Fewer(t, t') && Tidy(t, dir)
    ensures Tidy(t', dir)
  {
    hide Under, TidyBelow;
  }

  lemma FewerTrans(a: Fs, b: Fs, c: Fs)
    requires Fewer(a, b) && Fewer(b, c)
    ensures Fewer(a, c)
  {
  }

  /** One entry of a good listing: where its path lies, and what deleting it as a file keeps. */
  lemma EntryStep(t: Fs, uid: int, dir: Text, e: Entry)
    requires TreeInv(t) && Canon(dir) && Tidy(t, dir) && GoodEntry(dir, e)
    ensures Shape(t)
    ensures var p := Child(dir, e.name); Canon(p) && Tidy(t, p) && |dir| < |p| <= PATH_MAX && Under(p, dir)
    ensures var r := DeleteFile(t, uid, Child(dir, e.name)); TreeInv(r.0) && Fewer(t, r.0) && r.0.cwd == t.cwd
  {
    var p := Child(dir, e.name);
    ChildUnder(p, dir);
    DeleteFileKeeps(t, uid, p);
    DeletesFewer(t, uid, p);
    hide TreeInv, DeleteFile, Child, ParentOf, Fewer;
    assert Shape(t) by { TreeShape(t); }
    TidyDeeper(t.dused, t.dname, dir, p);
    TidyDeeper(t.fused, t.fname, dir, p);
  }

  lemma TidyDeeper(used: seq<bool>, names: seq<Text>, dir: Text, p: Text)
    requires |used| == |names| && TidyTable(used, names, dir) && Under(p, dir) && |dir| <= |p|
    ensures TidyTable(used, names, p)
  {
    forall i | 0 <= i < |names| && used[i] && Under(names[i], p) ensures TidyBelow(names[i], p) {
      var q := names[i];
      assert TidyBelow(q, dir);
      assert q[Min(|p|, |q|)..] == q[Min(|dir|, |q|)..][Min(|p|, |q|) - Min(|dir|, |q|)..];
    }
  }

  lemma DeletesFewer(t: Fs, uid: int, p: Text)
    requires Shape(t)
    ensures Fewer(t, DeleteFile(t, uid, p).0) && DeleteFile(t, uid, p).0.cwd == t.cwd
    ensures Fewer(t, DeleteDirectory(t, uid, p).0) && DeleteDirectory(t, uid, p).0.cwd == t.cwd
  {
    hide AbsPath, MayModifyParent, HasChild;
  }

  /** `fs_delete_directory_recursive` on a canonical path: it works through the listing as
      it reads it back from the buffer. */
  ghost function DeleteRecursive(t: Fs, uid: int, dir: Text): (r: (Fs, int))
    requires TreeInv(t) && Canon(dir) && Tidy(t, dir)
    ensures TreeInv(r.0) && Fewer(t, r.0) && r.0.cwd == t.cwd
    decreases PATH_MAX + 1 - |dir|, 1, 0
  {
    hide TreeInv, Canon, Tidy, Fewer, GoodEntries, ParseLines, Lines, MayModifyParent, DirectoryExists, DeleteDirectory, ListDirectory;
    TreeShape(t);
    FewerSelf(t);
    if !MayModifyParent(t, uid, dir) then (t, -2)
    else if !DirectoryExists(t, dir) then (t, -1)
    else
      var listing := ListDirectory(t, uid, dir);
      if listing.0 != 0 then (t, -1)
      else
        ListingGood(t, uid, dir);
        var r := DeleteEntries(t, uid, dir, ParseLines(Lines(listing.1)));
        TreeShape(r.0);
        if r.1 != 0 then r
        else
          DeleteDirectoryKeeps(r.0, uid, dir);
          DeletesFewer(r.0, uid, dir);
          var last := DeleteDirectory(r.0, uid, dir);
          FewerTrans(t, r.0, last.0);
          (last.0, if last.1 == 0 then 0 else -1)
  }

  ghost function DeleteEntries(t: Fs, uid: int, dir: Text, entries: seq<Entry>): (r: (Fs, int))
    requires TreeInv(t) && Canon(dir) && Tidy(t, dir) && GoodEntries(dir, entries)
    ensures TreeInv(r.0) && Fewer(t, r.0) && r.0.cwd == t.cwd
    decreases PATH_MAX + 1 - |dir|, 0, |entries|
  {
    hide TreeInv, Canon, Tidy, Fewer, GoodEntry, Child, DeleteFile, Under;
    TreeShape(t);
    FewerSelf(t);
    if entries == [] then (t, 0)
    else
      EntryStep(t, uid, dir, entries[0]);
      var p := Child(dir, entries[0].name);
      var r := if entries[0].isDir then DeleteRecursive(t, uid, p) else DeleteFile(t, uid, p);
      FewerTidy(t, r.0, dir);
      if r.1 != 0 then (r.0, -1)
      else
        var rest := DeleteEntries(r.0, uid, dir, entries[1..]);
        FewerTrans(t, r.0, rest.0);
        rest
  }

  lemma FewerSelf(t: Fs)
    requires Shape(t)
    ensures Fewer(t, t)
  {
  }

  /** `DeleteRecursive` by the checks it makes, in order. */
  lemma RecursiveCases(t: Fs, uid: int, dir: Text)
    requires TreeInv(t) && Canon(dir) && Tidy(t, dir)
    ensures Shape(t)
    ensures !MayModifyParent(t, uid, dir) ==> DeleteRecursive(t, uid, dir) == (t, -2)
    ensures MayModifyParent(t, uid, dir) && !DirectoryExists(t, dir) ==> DeleteRecursive(t, uid, dir) == (t, -1)
    ensures MayModifyParent(t, uid, dir) && DirectoryExists(t, dir) ==>
      var listing := ListDirectory(t, uid, dir);
      var entries := ParseLines(Lines(listing.1));
      if listing.0 != 0 then DeleteRecursive(t, uid, dir) == (t, -1)
      else
        && GoodEntries(dir, entries) && entries == listing.1
        && var r := DeleteEntries(t, uid, dir, entries);
           if r.1 != 0 then DeleteRecursive(t, uid, dir) == r
           else
             && Shape(r.0) && TreeInv(DeleteDirectory(r.0, uid, dir).0)
             && DeleteRecursive(t, uid, dir) ==
                (DeleteDirectory(r.0, uid, dir).0, if DeleteDirectory(r.0, uid, dir).1 == 0 then 0 else -1)
  {
    hide TreeInv, Canon, Tidy, ListDirectory, MayModifyParent, DirectoryExists, DeleteDirectory, DeleteEntries, GoodEntries, ParseLines, Lines;
    TreeShape(t);
    if MayModifyParent(t, uid, dir) && DirectoryExists(t, dir) && ListDirectory(t, uid, dir).0 == 0 {
      ListingGood(t, uid, dir);
      var r := DeleteEntries(t, uid, dir, ListDirectory(t, uid, dir).1);
      TreeShape(r.0);
      DeleteDirectoryKeeps(r.0, uid, dir);
    }
  }

  // ------------------------------------------------------- exactness of rm -r

  /** `p` is `dir` or lies below it. */
  ghost predicate Under(p: Text, dir: Text) {
    Components(dir) <= Components(p)
  }

  /** The tables with `dir` and everything below it cleared, and nothing else. */
  ghost function Removed(t: Fs, dir: Text): Fs
    requires Shape(t)
  {
    t.(dused := seq(MAX_D, i requires 0 <= i < MAX_D => t.dused[i] && !Under(t.dname[i], dir)),
       dname := seq(MAX_D, i requires 0 <= i < MAX_D => if t.dused[i] && Under(t.dname[i], dir) then [] else t.dname[i]),
       fused := seq(MAX_F, i requires 0 <= i < MAX_F => t.fused[i] && !Under(t.fname[i], dir)),
       fname := seq(MAX_F, i requires 0 <= i < MAX_F => if t.fused[i] && Under(t.fname[i], dir) then [] else t.fname[i]),
       data := seq(MAX_F, i requires 0 <= i < MAX_F => if t.fused[i] && Under(t.fname[i], dir) then [] else t.data[i]))
  }

  /** `t'` is `t` with some entries below `dir` cleared. */
  ghost predicate Thinned(t: Fs, t': Fs, dir: Text) {
    && Shape(t) && Shape(t')
    && t' == t.(dused := t'.dused, dname := t'.dname, fused := t'.fused, fname := t'.fname, data := t'.data)
    && (forall i :: 0 <= i < MAX_D ==> KeptOrCleared(t.dused[i], t.dname[i], t'.dused[i], t'.dname[i], dir))
    && (forall i :: 0 <= i < MAX_F ==>
          && KeptOrCleared(t.fused[i], t.fname[i], t'.fused[i], t'.fname[i], dir)
          && t'.data[i] == if t.fused[i] && !t'.fused[i] then [] else t.data[i])
  }

  ghost predicate KeptOrCleared(used: bool, name: Text, used': bool, name': Text, dir: Text) {
    (used' == used && name' == name) || (used && Under(name, dir) && !used' && name' == [])
  }

  lemma ThinnedSelf(t: Fs, dir: Text)
    requires Shape(t)
    ensures Thinned(t, t, dir)
  {
  }

  lemma ThinnedTrans(a: Fs, b: Fs, c: Fs, dir: Text)
    requires Thinned(a, b, dir) && Thinned(b, c, dir)
    ensures Thinned(a, c, dir)
  {
  }

  lemma ThinnedUp(t: Fs, t': Fs, p: Text, dir: Text)
    requires Thinned(t, t', p) && Under(p, dir)
    ensures Thinned(t, t', dir)
  {
  }

  lemma ChildUnder(p: Text, dir: Text)
    requires Canon(p) && Canon(dir) && p != ROOT && ParentOf(p) == dir
    ensures Under(p, dir)
  {
    CanonRoot();
    var cs := Components(p);
    if |cs| > 1 {
      assert Proper(cs[..|cs| - 1]);
      ComponentsOfRender(cs[..|cs| - 1]);
    }
  }

  lemma DeleteFileThins(t: Fs, uid: int, p: Text)
    requires TreeInv(t) && Canon(p)
    ensures Thinned(t, DeleteFile(t, uid, p).0, p)
  {
    AbsOfCanon(t.cwd, p);
    hide AbsPath, Canon, MayModifyParent;
  }

  lemma DeleteDirectoryThins(t: Fs, uid: int, p: Text)
    requires TreeInv(t) && Canon(p)
    ensures Thinned(t, DeleteDirectory(t, uid, p).0, p)
  {
    AbsOfCanon(t.cwd, p);
    hide AbsPath, Canon, MayModifyParent, HasChild;
  }

  /** Whatever the outcome, a recursive delete of a tidy directory clears only entries
      at or below it. */
  lemma {:induction false} RecursiveThins(t: Fs, uid: int, dir: Text)
    requires TreeInv(t) && Canon(dir) && Tidy(t, dir)
    ensures Thinned(t, DeleteRecursive(t, uid, dir).0, dir)
    decreases PATH_MAX + 1 - |dir|, 1, 0
  {
    hide TreeInv, Canon, Tidy, ListDirectory, MayModifyParent, DirectoryExists, DeleteDirectory, Thinned, GoodEntries;
    hide DeleteRecursive, DeleteEntries, ParseLines, Lines;
    RecursiveCases(t, uid, dir);
    ThinnedSelf(t, dir);
    var listing := ListDirectory(t, uid, dir);
    if MayModifyParent(t, uid, dir) && DirectoryExists(t, dir) && listing.0 == 0 {
      EntriesThin(t, uid, dir, listing.1);
      var r := DeleteEntries(t, uid, dir, listing.1);
      if r.1 == 0 {
        DeleteDirectoryThins(r.0, uid, dir);
        ThinnedTrans(t, r.0, DeleteDirectory(r.0, uid, dir).0, dir);
      }
    }
  }

  lemma {:induction false} EntriesThin(t: Fs, uid: int, dir: Text, entries: seq<Entry>)
    requires TreeInv(t) && Canon(dir) && Tidy(t, dir) && GoodEntries(dir, entries)
    ensures Thinned(t, DeleteEntries(t, uid, dir, entries).0, dir)
    decreases PATH_MAX + 1 - |dir|, 0, |entries|
  {
    hide TreeInv, Canon, Tidy, Thinned, Under, DeleteRecursive, DeleteFile, Child, GoodEntry, Fewer;
    TreeShape(t);
    ThinnedSelf(t, dir);
    if entries == [] {
    } else {
      EntryStep(t, uid, dir, entries[0]);
      var p := Child(dir, entries[0].name);
      var r := if entries[0].isDir then DeleteRecursive(t, uid, p) else DeleteFile(t, uid, p);
      if entries[0].isDir { RecursiveThins(t, uid, p); } else { DeleteFileThins(t, uid, p); }
      ThinnedUp(t, r.0, p, dir);
      FewerTidy(t, r.0, dir);
      if r.1 == 0 {
        EntriesThin(r.0, uid, dir, entries[1..]);
        ThinnedTrans(t, r.0, DeleteEntries(r.0, uid, dir, entries[1..]).0, dir);
      }
    }
  }

  lemma TreeShape(t: Fs)
    requires TreeInv(t)
    ensures Shape(t) && Canon(t.cwd)
  {
  }

  /** With no direct child of `dir` left, nothing below `dir` is left. */
  lemma {:induction false} NothingBelow(t: Fs, dir: Text, p: Text)
    requires TreeInv(t) && Canon(dir) && dir != ROOT && Childless(t, dir)
    requires Listed(t.dused, t.dname, p) || Listed(t.fused, t.fname, p)
    ensures Under(p, dir) ==> p == dir
    decreases |p|
  {
    assert Canon(p) && Rooted(t, p) && (p != ROOT ==> ParentOf(p) != dir) by { LivePlaced(t, dir, p); }
    if Under(p, dir) && p != dir {
      ProperDescendant(p, dir);
      ParentText(p);
      NothingBelow(t, dir, ParentOf(p));
    }
  }

  lemma LivePlaced(t: Fs, dir: Text, p: Text)
    requires TreeInv(t) && Childless(t, dir)
    requires Listed(t.dused, t.dname, p) || Listed(t.fused, t.fname, p)
    ensures Canon(p) && Rooted(t, p) && (p != ROOT ==> ParentOf(p) != dir)
  {
  }

  /** A proper descendant that is not a child has a parent that is one too. */
  lemma ProperDescendant(p: Text, dir: Text)
    requires Canon(p) && Canon(dir) && dir != ROOT && Under(p, dir) && p != dir
    ensures p != ROOT
    ensures ParentOf(p) != ROOT && Under(ParentOf(p), dir)
  {
    var cs, ds := Components(p), Components(dir);
    CanonRoot();
    assert ds != cs;
    assert ds != [];
    var init := cs[..|cs| - 1];
    assert Proper(init);
    ComponentsOfRender(init);
    assert Components(ParentOf(p)) == init;
    assert ds <= init;
  }

  /** Exactness: when the recursive delete of a tidy directory other than the root reports
      success, exactly that directory and everything below it is gone. */
  lemma DeleteRecursiveExact(t: Fs, uid: int, dir: Text)
    requires TreeInv(t) && Canon(dir) && dir != ROOT && Tidy(t, dir)
    requires DeleteRecursive(t, uid, dir).1 == 0
    ensures DeleteRecursive(t, uid, dir).0 == Removed(t, dir)
  {
    hide TreeInv, Canon, Tidy, DeleteRecursive, Thinned;
    TreeShape(t);
    var t' := DeleteRecursive(t, uid, dir).0;
    RecursiveThins(t, uid, dir);
    LastStepCleans(t, uid, dir);
    ThinnedCleanIsRemoved(t, t', dir);
  }

  ghost predicate Clean(t: Fs, dir: Text)
    requires Shape(t)
  {
    && (forall i :: 0 <= i < MAX_D && t.dused[i] ==> !Under(t.dname[i], dir))
    && (forall i :: 0 <= i < MAX_F && t.fused[i] ==> !Under(t.fname[i], dir))
  }

  lemma ThinnedCleanIsRemoved(t: Fs, t': Fs, dir: Text)
    requires Thinned(t, t', dir) && Clean(t', dir)
    ensures t' == Removed(t, dir)
  {
  }

  /** Success means the final `fs_delete_directory` found no child and took `dir`. */
  lemma LastStepCleans(t: Fs, uid: int, dir: Text)
    requires TreeInv(t) && Canon(dir) && dir != ROOT && Tidy(t, dir) && DeleteRecursive(t, uid, dir).1 == 0
    ensures Shape(DeleteRecursive(t, uid, dir).0) && Clean(DeleteRecursive(t, uid, dir).0, dir)
  {
    hide TreeInv, Canon, Tidy, ListDirectory, MayModifyParent, DirectoryExists, DeleteDirectory, GoodEntries;
    hide DeleteRecursive, DeleteEntries, ParseLines, Lines, Clean;
    RecursiveCases(t, uid, dir);
    DeleteDirectoryCleans(DeleteEntries(t, uid, dir, ListDirectory(t, uid, dir).1).0, uid, dir);
  }

  lemma DeleteDirectoryCleans(t: Fs, uid: int, dir: Text)
    requires TreeInv(t) && Canon(dir) && dir != ROOT && DeleteDirectory(t, uid, dir).1 == 0
    ensures Clean(DeleteDirectory(t, uid, dir).0, dir)
  {
    AbsOfCanon(t.cwd, dir);
    NoChildMeansChildless(t, dir);
    var t' := DeleteDirectory(t, uid, dir).0;
    forall i | 0 <= i < MAX_D && t'.dused[i] ensures !Under(t'.dname[i], dir) {
      assert Listed(t.dused, t.dname, t.dname[i]);
      NothingBelow(t, dir, t.dname[i]);
    }
    forall i | 0 <= i < MAX_F && t'.fused[i] ensures !Under(t'.fname[i], dir) {
      assert Listed(t.fused, t.fname, t.fname[i]);
      NothingBelow(t, dir, t.fname[i]);
    }
  }

  // --------------------------------------------------------------- whole runs

  datatype Op =
    | MakeDirectory(path: Text)
    | MakeFile(path: Text)
    | RemoveFile(path: Text)
    | RemoveDirectory(path: Text)
    | RemoveTree(path: Text)
    | Write(path: Text, bytes: seq<byte>, room: bool)
    | Append(path: Text, bytes: seq<byte>, room: bool)
    | Enter(path: Text)

  /** `fs_init`: an empty tree with its root. */
  function Initial(): Fs {
    Fs(seq(MAX_D, i => i == 0), seq(MAX_D, i => if i == 0 then ROOT else []), seq(MAX_D, _ => 0), seq(MAX_D, _ => 0x1ED),
       seq(MAX_F, _ => false), seq(MAX_F, _ => []), seq(MAX_F, _ => 0), seq(MAX_F, _ => 0x1ED),
       seq(MAX_F, _ => []), ROOT)
  }

  /** A new entry's path resolves to a canonical one; recursive delete is given a canonical
      path to a tidy directory. */
  ghost predicate Usable(t: Fs, op: Op)
    requires Shape(t)
  {
    match op
    case MakeDirectory(p) => Fits(t, p)
    case MakeFile(p) => Fits(t, p)
    case Write(p, _, _) => Fits(t, p)
    case Append(p, _, _) => Fits(t, p)
    case RemoveTree(p) => Canon(p) && Tidy(t, p)
    case _ => true
  }

  ghost function Perform(t: Fs, uid: int, op: Op): (Fs, int)
    requires TreeInv(t) && Usable(t, op)
  {
    match op
    case MakeDirectory(p) => CreateDirectory(t, uid, p)
    case MakeFile(p) => CreateFile(t, uid, p)
    case RemoveFile(p) => DeleteFile(t, uid, p)
    case RemoveDirectory(p) => DeleteDirectory(t, uid, p)
    case RemoveTree(p) => DeleteRecursive(t, uid, p)
    case Write(p, bytes, room) => WriteFile(t, uid, p, bytes, room)
    case Append(p, bytes, room) => AppendFile(t, uid, p, bytes, room)
    case Enter(p) => ChangeDirectory(t, uid, p)
  }

  lemma PerformKeeps(t: Fs, uid: int, op: Op)
    requires TreeInv(t) && Usable(t, op)
    ensures TreeInv(Perform(t, uid, op).0)
  {
    hide TreeInv;
    match op
    case MakeDirectory(p) => CreateDirectoryKeeps(t, uid, p);
    case MakeFile(p) => CreateFileKeeps(t, uid, p);
    case RemoveFile(p) => DeleteFileKeeps(t, uid, p);
    case RemoveDirectory(p) => DeleteDirectoryKeeps(t, uid, p);
    case RemoveTree(p) =>
    case Write(p, bytes, room) => WriteFileKeeps(t, uid, p, bytes, room);
    case Append(p, bytes, room) => AppendFileKeeps(t, uid, p, bytes, room);
    case Enter(p) => ChangeDirectoryKeeps(t, uid, p);
  }

  /** `t'` is reached from `t` by these operations, each by any user. */
  ghost predicate Reaches(t: Fs, ops: seq<(int, Op)>, t': Fs)
    decreases ops
  {
    if ops == [] then t' == t
    else Shape(t) && Usable(t, ops[0].1) && (TreeInv(t) ==> Reaches(Perform(t, ops[0].0, ops[0].1).0, ops[1..], t'))
  }

  lemma InitialTree()
    ensures TreeInv(Initial())
  {
    CanonRoot();
    hide Canon, ParentOf;
  }

  /** After any run, names are unique and every entry's parent is the root or a live
      directory. */
  lemma {:induction false} TreeAlways(t: Fs, ops: seq<(int, Op)>, t': Fs)
    requires TreeInv(t) && Reaches(t, ops, t')
    ensures TreeInv(t')
    decreases ops
  {
    hide TreeInv, Perform;
    if ops == [] {
    } else {
      PerformKeeps(t, ops[0].0, ops[0].1);
      TreeAlways(Perform(t, ops[0].0, ops[0].1).0, ops[1..], t');
    }
  }
}
