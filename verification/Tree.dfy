/** The name tables of the file system as values: what each operation does to them,
    and the tree invariant every run keeps. */
module Tree {
  import opened Words
  import opened Paths
  import opened Files

  const MAX_D: nat := 64

  datatype Fs = Fs(
    dused: seq<bool>, dname: seq<Text>, downer: seq<int>, dmode: seq<int>,
    fused: seq<bool>, fname: seq<Text>, fowner: seq<int>, fmode: seq<int>,
    data: seq<seq<byte>>,
    cwd: Text)

  ghost predicate Shape(t: Fs) {
    && |t.dused| == |t.dname| == |t.downer| == |t.dmode| == MAX_D
    && |t.fused| == |t.fname| == |t.fowner| == |t.fmode| == |t.data| == MAX_F
  }

  // ------------------------------------------------------------------ look-up

  /** The first used slot with this name, or -1. */
  function Find(used: seq<bool>, names: seq<Text>, p: Text): (i: int)
    requires |used| == |names|
    ensures -1 <= i < |used|
    ensures i >= 0 ==> used[i] && names[i] == p
    ensures i >= 0 ==> forall j :: 0 <= j < i ==> !(used[j] && names[j] == p)
    ensures i == -1 ==> forall j :: 0 <= j < |used| ==> !(used[j] && names[j] == p)
  {
    FindFrom(used, names, p, 0)
  }

  function FindFrom(used: seq<bool>, names: seq<Text>, p: Text, k: nat): (i: int)
    requires |used| == |names| && k <= |used|
    ensures i == -1 || k <= i < |used|
    ensures i >= 0 ==> used[i] && names[i] == p
    ensures forall j :: k <= j < (if i == -1 then |used| else i) ==> !(used[j] && names[j] == p)
    decreases |used| - k
  {
    if k == |used| then -1
    else if used[k] && names[k] == p then k
    else FindFrom(used, names, p, k + 1)
  }

  /** The first unused slot at or after `k`, or -1. */
  function Unused(used: seq<bool>, k: nat): (i: int)
    requires k <= |used|
    ensures i == -1 || (k <= i < |used| && !used[i])
    ensures forall j :: k <= j < (if i == -1 then |used| else i) ==> used[j]
    decreases |used| - k
  {
    if k == |used| then -1 else if !used[k] then k else Unused(used, k + 1)
  }

  // -------------------------------------------------------------- permissions

  function Pow2(k: nat): nat { if k == 0 then 1 else 2 * Pow2(k - 1) }

  predicate HasBit(mode: int, k: nat) {
    Pow2(k) > 0 && (mode / Pow2(k)) % 2 == 1
  }

  const READ: nat := 8
  const WRITE: nat := 7
  const EXEC: nat := 6

  /** Root passes, the owner needs the owner bit, everyone else the other bit. */
  predicate Allows(uid: int, mode: int, owner: int, bit: nat)
    requires bit >= 6
  {
    uid == 0 || HasBit(mode, if uid == owner then bit else bit - 6)
  }

  /** Digit by digit: with mode `hugo` in octal, root may do everything, the owner is judged
      by the digit u and everyone else by the digit o; the digit g never matters. A digit
      grants reading from 4 on, writing when it has its 2 and entering when it is odd. */
  lemma DigitsDecide(uid: int, owner: int, h: nat, u: nat, g: nat, o: nat)
    requires u < 8 && g < 8 && o < 8
    ensures var mode, digit := 512 * h + 64 * u + 8 * g + o, if uid == owner then u else o;
      && (Allows(uid, mode, owner, READ) <==> uid == 0 || digit >= 4)
      && (Allows(uid, mode, owner, WRITE) <==> uid == 0 || digit % 4 >= 2)
      && (Allows(uid, mode, owner, EXEC) <==> uid == 0 || digit % 2 == 1)
  {
    PowersUsed();
    hide Pow2;
    OwnerDigit(h, u, 8 * g + o);
    OtherDigit(64 * h + 8 * u + g, o);
  }

  lemma OwnerDigit(h: nat, u: nat, rest: nat)
    requires u < 8 && rest < 64
    ensures var mode := 512 * h + 64 * u + rest;
      && ((mode / 256) % 2 == 1 <==> u >= 4) && ((mode / 128) % 2 == 1 <==> u % 4 >= 2) && ((mode / 64) % 2 == 1 <==> u % 2 == 1)
  {
    var mode := 512 * h + 64 * u + rest;
    assert mode / 64 == 8 * h + u;
    assert mode / 128 == 4 * h + u / 2;
    assert mode / 256 == 2 * h + u / 4;
  }

  lemma OtherDigit(high: nat, o: nat)
    requires o < 8
    ensures var mode := 8 * high + o;
      && ((mode / 4) % 2 == 1 <==> o >= 4) && ((mode / 2) % 2 == 1 <==> o % 4 >= 2) && (mode % 2 == 1 <==> o % 2 == 1)
  {
    var mode := 8 * high + o;
    assert mode / 2 == 4 * high + o / 2;
    assert mode / 4 == 2 * high + o / 4;
  }

  lemma PowersUsed()
    ensures Pow2(0) == 1 && Pow2(1) == 2 && Pow2(2) == 4 && Pow2(6) == 64 && Pow2(7) == 128 && Pow2(8) == 256
  {
    assert Pow2(3) == 8 && Pow2(4) == 16 && Pow2(5) == 32;
  }

  // ------------------------------------------------------------------ parents

  /** One past the last slash. */
  function Cut(s: Text): (n: nat)
    ensures n <= |s|
  {
    if s == [] then 0 else if s[|s| - 1] == SLASH then |s| else Cut(s[..|s| - 1])
  }

  function StripSlashes(s: Text): (r: Text)
    ensures |r| <= |s|
  {
    if |s| > 1 && s[|s| - 1] == SLASH then StripSlashes(s[..|s| - 1]) else s
  }

  /** `split_parent`. */
  function SplitParent(s: Text): Text {
    var b := StripSlashes(s);
    var cut := Cut(b);
    if cut == 0 then ROOT else if cut == 1 then b[..1] else b[..cut - 1]
  }

  predicate DirectoryExists(t: Fs, path: Text)
    requires |t.dused| == |t.dname|
  {
    path != [] && (path == ROOT || Find(t.dused, t.dname, AbsPath(t.cwd, path)) >= 0)
  }

  /** `parent_exists` on the canonical text. */
  predicate ParentExists(t: Fs, full: Text)
    requires |t.dused| == |t.dname|
  {
    |full| <= 1 || Cut(full) <= 1 || DirectoryExists(t, full[..Cut(full) - 1])
  }

  predicate MayModifyParent(t: Fs, uid: int, full: Text)
    requires |t.dused| == |t.dname| == |t.downer| == |t.dmode|
  {
    var d := Find(t.dused, t.dname, SplitParent(full));
    d < 0 || Allows(uid, t.dmode[d], t.downer[d], WRITE)
  }

  // --------------------------------------------------------------- operations

  function AddDir(t: Fs, uid: int, i: nat, full: Text): Fs
    requires i < |t.dused| && i < |t.dname| && i < |t.downer| && i < |t.dmode|
  {
    t.(dname := t.dname[i := full], dused := t.dused[i := true], downer := t.downer[i := uid], dmode := t.dmode[i := 0x1ED])
  }

  function AddFile(t: Fs, uid: int, i: nat, full: Text): Fs
    requires Shape(t) && i < MAX_F
  {
    t.(fname := t.fname[i := full], data := t.data[i := []], fused := t.fused[i := true],
       fowner := t.fowner[i := uid], fmode := t.fmode[i := 0x1A4])
  }

  function DropDir(t: Fs, i: nat): Fs
    requires i < |t.dused| && i < |t.dname|
  {
    t.(dused := t.dused[i := false], dname := t.dname[i := []])
  }

  function DropFile(t: Fs, i: nat): Fs
    requires Shape(t) && i < MAX_F
  {
    t.(fused := t.fused[i := false], fname := t.fname[i := []], data := t.data[i := []])
  }

  /** `fs_create_directory`. */
  function CreateDirectory(t: Fs, uid: int, path: Text): (r: (Fs, int))
    requires Shape(t)
    ensures Shape(r.0)
  {
    var full := AbsPath(t.cwd, path);
    if path == [] || !ParentExists(t, full) || full == ROOT then (t, -1)
    else if Find(t.dused, t.dname, full) >= 0 || Find(t.fused, t.fname, full) >= 0 then (t, -1)
    else if !MayModifyParent(t, uid, full) then (t, -2)
    else
      var i := Unused(t.dused, 1);
      if i == -1 then (t, -1) else (AddDir(t, uid, i, full), 0)
  }

  /** `fs_create_file`: an existing file is success. */
  function CreateFile(t: Fs, uid: int, path: Text): (r: (Fs, int))
    requires Shape(t)
    ensures Shape(r.0)
  {
    var full := AbsPath(t.cwd, path);
    if path == [] || !ParentExists(t, full) then (t, -1)
    else if Find(t.fused, t.fname, full) >= 0 then (t, 0)
    else if Find(t.dused, t.dname, full) >= 0 then (t, -1)
    else if !MayModifyParent(t, uid, full) then (t, -2)
    else
      var i := Unused(t.fused, 0);
      if i == -1 then (t, -1) else (AddFile(t, uid, i, full), 0)
  }

  /** `fs_delete_file`. */
  function DeleteFile(t: Fs, uid: int, path: Text): (r: (Fs, int))
    requires Shape(t)
    ensures Shape(r.0)
  {
    var full := AbsPath(t.cwd, path);
    if path == [] then (t, -1)
    else if !MayModifyParent(t, uid, full) then (t, -2)
    else
      var i := Find(t.fused, t.fname, full);
      if i == -1 then (t, -1) else (DropFile(t, i), 0)
  }

  /** The text test for a direct child: the directory, a slash, no further slash. */
  predicate ChildText(name: Text, dir: Text) {
    && |name| > |dir|
    && name[..|dir|] == dir
    && name[|dir|] == SLASH
    && SLASH !in name[|dir| + 1..]
  }

  predicate HasChild(t: Fs, full: Text)
    requires Shape(t)
  {
    || (exists i :: 0 <= i < MAX_F && t.fused[i] && ChildText(t.fname[i], full))
    || (exists i :: 0 <= i < MAX_D && t.dused[i] && t.dname[i] != full && ChildText(t.dname[i], full))
  }

  /** `fs_delete_directory`. */
  function DeleteDirectory(t: Fs, uid: int, path: Text): (r: (Fs, int))
    requires Shape(t)
    ensures Shape(r.0)
  {
    var full := AbsPath(t.cwd, path);
    if path == [] then (t, -1)
    else if !MayModifyParent(t, uid, full) then (t, -2)
    else if path == ROOT then (t, -1)
    else if HasChild(t, full) then (t, -2)
    else
      var i := Find(t.dused, t.dname, full);
      if i == -1 then (t, -1) else (DropDir(t, i), 0)
  }

  /** A failed write removes the slot again when it holds nothing. */
  function RollBack(t: Fs, i: nat): (r: Fs)
    requires Shape(t) && i < MAX_F
    ensures Shape(r)
  {
    if t.data[i] == [] then t.(fused := t.fused[i := false], fname := t.fname[i := []]) else t
  }

  /** `fs_write_file`; `room` says whether the pool could hold the new size. */
  function WriteFile(t: Fs, uid: int, path: Text, bytes: seq<byte>, room: bool): (r: (Fs, int))
    requires Shape(t)
    ensures Shape(r.0)
  {
    var full := AbsPath(t.cwd, path);
    var at := Find(t.fused, t.fname, full);
    if at >= 0 && !Allows(uid, t.fmode[at], t.fowner[at], WRITE) then (t, -2)
    else
      var made := if at >= 0 then (t, 0) else CreateFile(t, uid, path);
      var t1 := made.0;
      var i := Find(t1.fused, t1.fname, full);
      if made.1 != 0 || i == -1 then (t1, -1)
      else if |bytes| > MAX_FILE_DATA - 1 then (RollBack(t1, i), -2)
      else if |bytes| > 0 && !room then (RollBack(t1, i), -3)
      else (t1.(data := t1.data[i := bytes]), 0)
  }

  /** `fs_append_file`. */
  function AppendFile(t: Fs, uid: int, path: Text, bytes: seq<byte>, room: bool): (r: (Fs, int))
    requires Shape(t)
    ensures Shape(r.0)
  {
    var full := AbsPath(t.cwd, path);
    if path == [] || bytes == [] then (t, -1)
    else
      var at := Find(t.fused, t.fname, full);
      if at >= 0 && !Allows(uid, t.fmode[at], t.fowner[at], WRITE) then (t, -2)
      else
        var made := if at >= 0 then (t, 0) else CreateFile(t, uid, path);
        var t1 := made.0;
        var i := Find(t1.fused, t1.fname, full);
        if made.1 != 0 then made
        else if i == -1 then (t1, -1)
        else if |t1.data[i]| + |bytes| > MAX_FILE_DATA - 1 then (t1, -3)
        else if !room then (t1, -4)
        else (t1.(data := t1.data[i := t1.data[i] + bytes]), 0)
  }

  /** `fs_change_directory`. */
  function ChangeDirectory(t: Fs, uid: int, path: Text): (r: (Fs, int))
    requires Shape(t)
    ensures Shape(r.0)
  {
    if path == [] then (t.(cwd := ROOT), 0)
    else
      var full := AbsPath(t.cwd, path);
      var i := Find(t.dused, t.dname, full);
      if i == -1 then (t, -1)
      else if !Allows(uid, t.dmode[i], t.downer[i], EXEC) then (t, -2)
      else (t.(cwd := full), 0)
  }

  // ----------------------------------------------------------- tree invariant

  function ParentOf(p: Text): Text {
    var cs := Components(p);
    if |cs| <= 1 then ROOT else Render(cs[..|cs| - 1])
  }

  ghost predicate Listed(used: seq<bool>, names: seq<Text>, p: Text)
    requires |used| == |names|
  {
    exists i :: 0 <= i < |names| && names[i] == p && used[i]
  }

  /** The parent is the root or a live directory. */
  ghost predicate Rooted(t: Fs, p: Text)
    requires |t.dused| == |t.dname|
  {
    ParentOf(p) == ROOT || Listed(t.dused, t.dname, ParentOf(p))
  }

  ghost predicate DistinctNames(used: seq<bool>, names: seq<Text>)
    requires |used| == |names|
  {
    forall i, j :: 0 <= i < j < |names| && used[i] && used[j] ==> names[i] != names[j]
  }

  ghost predicate Placed(t: Fs, used: seq<bool>, names: seq<Text>)
    requires |t.dused| == |t.dname| && |used| == |names|
  {
    forall i :: 0 <= i < |names| && used[i] ==> Canon(names[i]) && Rooted(t, names[i])
  }

  ghost predicate TreeInv(t: Fs) {
    && Shape(t)
    && Placed(t, t.dused, t.dname) && Placed(t, t.fused, t.fname)
    && DistinctNames(t.dused, t.dname) && DistinctNames(t.fused, t.fname)
    && (forall i, j :: 0 <= i < MAX_F && 0 <= j < MAX_D && t.fused[i] && t.dused[j] ==> t.fname[i] != t.dname[j])
    && Canon(t.cwd)
    && (t.dused[0] ==> t.dname[0] == ROOT)
  }

  // --------------------------------------------------- text facts about parents

  lemma {:induction false} CutAppend(s: Text, c: Text)
    requires SLASH !in c
    ensures Cut(s + ROOT + c) == |s| + 1
  {
    if c == [] {
      assert s + ROOT + c == s + ROOT;
    } else {
      var init := c[..|c| - 1];
      assert (s + ROOT + c)[..|s + ROOT + c| - 1] == s + ROOT + init;
      CutAppend(s, init);
    }
  }

  /** On a canonical path the text surgery of the source finds the parent. */
  lemma ParentText(p: Text)
    requires Canon(p) && p != ROOT
    ensures |p| > 1 && Cut(p) >= 1
    ensures Cut(p) == 1 ==> ParentOf(p) == ROOT
    ensures Cut(p) > 1 ==> p[..Cut(p) - 1] == ParentOf(p) && ParentOf(p) != ROOT
    ensures Canon(ParentOf(p)) && SplitParent(p) == ParentOf(p)
    ensures |ParentOf(p)| < |p|
  {
    hide Components, Join, Cut, StripSlashes;
    var cs := Components(p);
    var n := |cs| - 1;
    var init, last := cs[..n], cs[n];
    JoinLast(cs);
    assert ProperName(last) && Proper(init);
    CutAppend(Join(init), last);
    LastNotSlash(p, Join(init), last);
    ComponentsOfRender(init);
    RenderLength(init);
    JoinNothing();
    assert n == 0 ==> init == [] && p[..1] == ROOT;
    assert n > 0 ==> p[..|Join(init)|] == Join(init);
  }

  /** ".." names the parent of the cwd. */
  lemma UpIsParent(cwd: Text)
    requires Canon(cwd)
    ensures AbsPath(cwd, [DOT, DOT]) == ParentOf(cwd)
  {
    hide Components, Join, AbsPath;
    DotsMean(cwd);
    JoinNothing();
  }

  /** A text that does not end in a slash is its own stripped form. */
  lemma LastNotSlash(p: Text, front: Text, last: Text)
    requires p == front + ROOT + last && ProperName(last)
    ensures StripSlashes(p) == p && |p| > 1
  {
    assert p[|p| - 1] == last[|last| - 1] && last[|last| - 1] in last;
  }

  lemma CanonRoot()
    ensures Canon(ROOT) && ParentOf(ROOT) == ROOT
  {
  }

  lemma CanonAbsolute(p: Text)
    requires Canon(p)
    ensures Absolute(p)
  {
  }

  /** A direct child by the text test is exactly an entry whose parent is `dir`. */
  lemma ChildIsParent(p: Text, dir: Text)
    requires Canon(p) && Canon(dir) && dir != ROOT
    ensures ChildText(p, dir) <==> p != ROOT && ParentOf(p) == dir
  {
    hide Components, Join, Cut, Canon, ParentOf;
    CanonLength(dir);
    if p != ROOT {
      ParentText(p);
      CanonLast(p);
      if ParentOf(p) == dir { assert p == dir + ROOT + p[|dir| + 1..]; }
      if ChildText(p, dir) {
        assert p == dir + ROOT + p[|dir| + 1..];
        CutAppend(dir, p[|dir| + 1..]);
      }
    }
  }

  /** Behind the parent of a canonical path come a slash and one component. */
  lemma CanonLast(p: Text)
    requires Canon(p) && p != ROOT
    ensures ParentOf(p) != ROOT ==>
      |p| > |ParentOf(p)| && p[..|ParentOf(p)|] == ParentOf(p) && p[|ParentOf(p)|] == SLASH && SLASH !in p[|ParentOf(p)| + 1..]
  {
    hide Components, Join;
    var cs := Components(p);
    var n := |cs| - 1;
    var init, last := cs[..n], cs[n];
    JoinLast(cs);
    assert ProperName(last);
    JoinNothing();
    assert p == Join(init) + ROOT + last;
    assert n > 0 ==> p[..|Join(init)|] == Join(init) && p[|Join(init)| + 1..] == last;
  }

  lemma CanonLength(dir: Text)
    requires Canon(dir) && dir != ROOT
    ensures |dir| > 1
  {
    RenderLength(Components(dir));
  }

  lemma AbsOfCanon(cwd: Text, p: Text)
    requires Canon(cwd) && Canon(p)
    ensures AbsPath(cwd, p) == p
  {
    CanonAbsolute(cwd);
    CanonicalFixed(cwd, Components(p));
  }
}
