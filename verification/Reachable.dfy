/** Every reachable file system can be stored: what the Storefile image relies on is
    kept by every operation. */
module Reachable {
  import opened Words
  import opened Paths
  import opened Files
  import opened Tree
  import opened TreeRuns
  import opened Image

  lemma {:induction false} ComponentsNoNul(s: Text)
    requires 0 !in s
    ensures forall c: Text :: c in Components(s) ==> 0 !in c
    decreases s
  {
    if s == [] {
    } else {
      if s[0] == SLASH {
        ComponentsNoNul(s[1..]);
      } else {
        var k := Span(s);
        ComponentsNoNul(s[k..]);
      }
    }
  }

  lemma {:induction false} FoldNoNul(b: Buffer, cs: seq<Text>)
    requires |b.out| <= PATH_MAX && 0 !in b.out && forall c: Text :: c in cs ==> 0 !in c
    ensures 0 !in FoldBuffer(b, cs).out
    decreases cs
  {
    if cs == [] {
    } else {
      assert cs[0] in cs;
      FoldNoNul(StepBuffer(b, cs[0]), cs[1..]);
    }
  }

  lemma AbsPathGood(cwd: Text, path: Text)
    requires 0 !in cwd && 0 !in path
    ensures GoodName(AbsPath(cwd, path))
  {
    ComponentsNoNul(Combine(cwd, path));
    FoldNoNul(Buffer(ROOT, []), Components(Combine(cwd, path)));
  }

  /** The caller passes C strings and a 32-bit uid. */
  ghost predicate CArguments(uid: int, op: Op) {
    -HALF32 <= uid < HALF32 && 0 !in op.path
  }

  lemma CreateFileStores(t: Fs, uid: int, path: Text)
    requires Storable(t) && -HALF32 <= uid < HALF32 && 0 !in path
    ensures Storable(CreateFile(t, uid, path).0)
  {
    AbsPathGood(t.cwd, path);
    hide AbsPath, MayModifyParent, ParentExists;
  }

  lemma CreateDirectoryStores(t: Fs, uid: int, path: Text)
    requires Storable(t) && -HALF32 <= uid < HALF32 && 0 !in path
    ensures Storable(CreateDirectory(t, uid, path).0)
  {
    AbsPathGood(t.cwd, path);
    hide AbsPath, MayModifyParent, ParentExists;
  }

  lemma ThinnedStores(t: Fs, t': Fs, dir: Text)
    requires Storable(t) && Thinned(t, t', dir)
    ensures Storable(t')
  {
  }

  lemma DeletesStore(t: Fs, uid: int, path: Text)
    requires Storable(t)
    ensures Storable(DeleteFile(t, uid, path).0) && Storable(DeleteDirectory(t, uid, path).0)
  {
    hide AbsPath, MayModifyParent, HasChild;
  }

  lemma WriteStores(t: Fs, uid: int, path: Text, bytes: seq<byte>, room: bool)
    requires Storable(t) && -HALF32 <= uid < HALF32 && 0 !in path
    ensures Storable(WriteFile(t, uid, path, bytes, room).0)
  {
    CreateFileStores(t, uid, path);
    hide AbsPath, CreateFile, Allows, GoodNames, GoodOwners, GoodName;
    var full := AbsPath(t.cwd, path);
    var t1 := if Find(t.fused, t.fname, full) >= 0 then t else CreateFile(t, uid, path).0;
    var i := Find(t1.fused, t1.fname, full);
    if i >= 0 { ClearNameStores(t1, i); }
  }

  lemma AppendStores(t: Fs, uid: int, path: Text, bytes: seq<byte>, room: bool)
    requires Storable(t) && -HALF32 <= uid < HALF32 && 0 !in path
    ensures Storable(AppendFile(t, uid, path, bytes, room).0)
  {
    CreateFileStores(t, uid, path);
    hide AbsPath, CreateFile, Allows, GoodNames, GoodOwners, GoodName;
  }

  lemma ClearNameStores(t: Fs, i: nat)
    requires Storable(t) && i < MAX_F
    ensures GoodNames(t.fname[i := []])
  {
  }

  lemma PerformStores(t: Fs, uid: int, op: Op)
    requires Storable(t) && TreeInv(t) && Usable(t, op) && CArguments(uid, op)
    ensures Storable(Perform(t, uid, op).0)
  {
    hide Storable, TreeInv, Thinned;
    match op
    case MakeDirectory(p) => CreateDirectoryStores(t, uid, p);
    case MakeFile(p) => CreateFileStores(t, uid, p);
    case RemoveFile(p) => DeletesStore(t, uid, p);
    case RemoveDirectory(p) => DeletesStore(t, uid, p);
    case RemoveTree(p) =>
      RecursiveThins(t, uid, p);
      ThinnedStores(t, DeleteRecursive(t, uid, p).0, p);
    case Write(p, bytes, room) => WriteStores(t, uid, p, bytes, room);
    case Append(p, bytes, room) => AppendStores(t, uid, p, bytes, room);
    case Enter(p) => EnterStores(t, uid, p);
  }

  lemma EnterStores(t: Fs, uid: int, path: Text)
    requires Storable(t) && 0 !in path
    ensures Storable(ChangeDirectory(t, uid, path).0)
  {
  }

  lemma InitialStorable()
    ensures Storable(Initial())
  {
  }

  lemma {:induction false} StorableAlways(t: Fs, ops: seq<(int, Op)>, t': Fs)
    requires Storable(t) && TreeInv(t) && Reaches(t, ops, t')
    requires forall i :: 0 <= i < |ops| ==> CArguments(ops[i].0, ops[i].1)
    ensures Storable(t')
    decreases ops
  {
    hide TreeInv, Perform, Storable, CArguments;
    if ops == [] {
    } else {
      PerformStores(t, ops[0].0, ops[0].1);
      PerformKeeps(t, ops[0].0, ops[0].1);
      StorableAlways(Perform(t, ops[0].0, ops[0].1).0, ops[1..], t');
    }
  }

  /** Every file system reached from the initial one, whose non-empty files leave 24
      bytes of the pool, comes back unchanged from its stored image. */
  lemma ReachableRoundTrip(bytes: nat, ops: seq<(int, Op)>, t: Fs, rest: seq<byte>)
    requires Reaches(Initial(), ops, t)
    requires forall i :: 0 <= i < |ops| ==> CArguments(ops[i].0, ops[i].1)
    requires Shape(t) && Need(t.fused, t.data) + 24 <= bytes
    ensures Parse(bytes, Serialize(t) + rest) == Some((t, rest))
  {
    InitialTree();
    InitialStorable();
    hide Storable, TreeInv, Reaches, Need;
    StorableAlways(Initial(), ops, t);
    SlackReloads(bytes, t.fused, t.data);
    ParseSerialize(bytes, t, rest);
  }
}
