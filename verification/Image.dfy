/** The Storefile image of the file system: its byte layout, the parser that reads it
    back, and the round trip. */
module Image {
  import opened Words
  import opened Paths
  import opened FilePool
  import opened Files
  import opened Tree

  datatype Option<+T> = None | Some(value: T)

  const NAME_CAP: nat := 256

  // ------------------------------------------------------------------ encodings

  function Le16(v: nat): (r: seq<byte>)
    ensures |r| == 2
  {
    [(v % 256) as byte, (v / 256 % 256) as byte]
  }

  function Un16(s: seq<byte>): nat
    requires |s| == 2
  {
    s[0] as nat + 0x100 * s[1] as nat
  }

  function Un32(s: seq<byte>): u32
    requires |s| == 4
  {
    s[0] as nat + 0x100 * s[1] as nat + 0x1_0000 * s[2] as nat + 0x100_0000 * s[3] as nat
  }

  lemma Un16Le16(v: nat)
    requires v < 0x1_0000
    ensures Un16(Le16(v)) == v
  {
  }

  lemma Un32Le32(v: u32)
    ensures Un32(Le32(v)) == v
  {
    hide Le32;
  }

  function Zeros(n: nat): (r: seq<byte>)
    ensures |r| == n && forall i :: 0 <= i < n ==> r[i] == 0
  {
    seq(n, _ => 0 as byte)
  }

  /** A name in its 256-byte slot. */
  function Pad(name: Text): (r: seq<byte>)
    ensures |r| == NAME_CAP
  {
    if |name| < NAME_CAP then name + Zeros(NAME_CAP - |name|) else name[..NAME_CAP]
  }

  /** The C string stored in a slot. */
  function CString(s: seq<byte>): (r: Text)
    ensures |r| <= |s|
  {
    if s == [] || s[0] == 0 then [] else [s[0]] + CString(s[1..])
  }

  lemma {:induction false} CStringPad(name: Text, zeros: seq<byte>)
    requires 0 !in name && zeros != [] && zeros[0] == 0
    ensures CString(name + zeros) == name
  {
    if name == [] {
    } else {
      assert (name + zeros)[1..] == name[1..] + zeros;
      CStringPad(name[1..], zeros);
    }
  }

  function EncFlags(used: seq<bool>): (r: seq<byte>)
    ensures |r| == |used|
  {
    seq(|used|, i requires 0 <= i < |used| => if used[i] then 1 as byte else 0)
  }

  function EncNames(names: seq<Text>): seq<byte> {
    if names == [] then [] else Pad(names[0]) + EncNames(names[1..])
  }

  function EncSizes(data: seq<seq<byte>>): seq<byte> {
    if data == [] then [] else Le32(Wrap32(|data[0]|)) + EncSizes(data[1..])
  }

  /** File contents, used non-empty files only, in slot order. */
  function EncData(used: seq<bool>, data: seq<seq<byte>>): seq<byte>
    requires |used| == |data|
    decreases |data|
  {
    if data == [] then [] else (if used[0] then data[0] else []) + EncData(used[1..], data[1..])
  }

  function EncOwners(owner: seq<int>, mode: seq<int>): seq<byte>
    requires |owner| == |mode|
    decreases |owner|
  {
    if owner == [] then []
    else Le32(Wrap32(owner[0])) + Le16(mode[0] % 0x1_0000) + EncOwners(owner[1..], mode[1..])
  }

  const MAGIC: seq<byte> := [84, 74, 70, 83, 4, 0, 0, 0]

  function DirImage(t: Fs): seq<byte> {
    MAGIC + EncFlags(t.dused) + EncNames(t.dname)
  }

  function FileImage(t: Fs): seq<byte> {
    EncFlags(t.fused) + EncSizes(t.data) + EncNames(t.fname)
  }

  function TailImage(t: Fs): seq<byte>
    requires Shape(t)
  {
    EncData(t.fused, t.data) + Pad(t.cwd) + EncOwners(t.downer, t.dmode) + EncOwners(t.fowner, t.fmode)
  }

  /** `fs_serialize_sink`: the bytes it emits. */
  function Serialize(t: Fs): seq<byte>
    requires Shape(t)
  {
    DirImage(t) + FileImage(t) + TailImage(t)
  }

  // -------------------------------------------------------------------- parsing

  /** Reading `n` bytes off the front, as the fill callback does. */
  function Fill(s: seq<byte>, n: nat): Option<(seq<byte>, seq<byte>)> {
    if |s| < n then None else Some((s[..n], s[n..]))
  }

  function DecFlags(s: seq<byte>): (r: seq<bool>)
    ensures |r| == |s|
  {
    seq(|s|, i requires 0 <= i < |s| => s[i] != 0)
  }

  function DecNames(s: seq<byte>, n: nat): (r: Option<(seq<Text>, seq<byte>)>)
    ensures r.Some? ==> |r.value.0| == n
    decreases n
  {
    if n == 0 then Some(([], s))
    else if |s| < NAME_CAP then None
    else
      match DecNames(s[NAME_CAP..], n - 1)
      case None => None
      case Some((names, rest)) => Some(([CString(s[..NAME_CAP])] + names, rest))
  }

  function DecSizes(s: seq<byte>, n: nat): (r: Option<(seq<nat>, seq<byte>)>)
    ensures r.Some? ==> |r.value.0| == n && forall i :: 0 <= i < n ==> r.value.0[i] < MAX_FILE_DATA
    decreases n
  {
    if n == 0 then Some(([], s))
    else if |s| < 4 || Un32(s[..4]) >= MAX_FILE_DATA then None
    else
      match DecSizes(s[4..], n - 1)
      case None => None
      case Some((sizes, rest)) => Some(([Un32(s[..4]) as nat] + sizes, rest))
  }

  datatype Owners = Owners(owner: seq<int>, mode: seq<int>, rest: seq<byte>, complete: bool)

  const DEFAULT_MODE: int := 0x1ED

  function DefaultOwners(n: nat, rest: seq<byte>, complete: bool): Owners {
    Owners(seq(n, _ => 0), seq(n, _ => DEFAULT_MODE), rest, complete)
  }

  /** Owner and mode per slot. A short image is not an error: what was not read keeps
      the default. */
  function DecOwners(s: seq<byte>, n: nat): (r: Owners)
    ensures |r.owner| == |r.mode| == n
    decreases n
  {
    if n == 0 then Owners([], [], s, true)
    else if |s| < 4 then DefaultOwners(n, s, false)
    else if |s| < 6 then
      var d := DefaultOwners(n, s[4..], false);
      d.(owner := d.owner[0 := Signed32(Un32(s[..4]))])
    else
      var r := DecOwners(s[6..], n - 1);
      r.(owner := [Signed32(Un32(s[..4]))] + r.owner, mode := [Un16(s[4..6])] + r.mode)
  }

  // ---------------------------------------------- the pool while files are loaded

  /** Loading allocates one block after another from an empty pool: `tail` is where
      the free rest begins, `bytes` (the pool size) when there is none. */
  function NextTail(bytes: nat, tail: nat, size: nat): Option<nat> {
    var need := Round4(size + 1);
    if tail + HDR + need > bytes then None
    else if bytes - tail - HDR - need >= MIN_SPLIT then Some(tail + HDR + need)
    else Some(bytes)
  }

  /** File contents by slot, allocated and read in slot order. */
  function DecData(bytes: nat, tail: nat, used: seq<bool>, sizes: seq<nat>, s: seq<byte>): (r: Option<(seq<seq<byte>>, seq<byte>)>)
    requires |used| == |sizes|
    ensures r.Some? ==> |r.value.0| == |sizes|
    decreases |sizes|
  {
    if sizes == [] then Some(([], s))
    else if !used[0] || sizes[0] == 0 then
      match DecData(bytes, tail, used[1..], sizes[1..], s)
      case None => None
      case Some((data, rest)) => Some(([[]] + data, rest))
    else
      match NextTail(bytes, tail, sizes[0])
      case None => None
      case Some(tail') =>
        if |s| < sizes[0] then None
        else
          match DecData(bytes, tail', used[1..], sizes[1..], s[sizes[0]..])
          case None => None
          case Some((data, rest)) => Some(([s[..sizes[0]]] + data, rest))
  }

  /** Does every non-empty used file find room, in slot order? */
  function Reloads(bytes: nat, tail: nat, used: seq<bool>, data: seq<seq<byte>>): bool
    requires |used| == |data|
    decreases |data|
  {
    if data == [] then true
    else if !used[0] || data[0] == [] then Reloads(bytes, tail, used[1..], data[1..])
    else
      match NextTail(bytes, tail, |data[0]|)
      case None => false
      case Some(tail') => Reloads(bytes, tail', used[1..], data[1..])
  }

  /** `fs_deserialize_fill` of a byte stream into a pool of this size: the tables and
      what is left of the stream. */
  function Parse(bytes: nat, s: seq<byte>): Option<(Fs, seq<byte>)> {
    if |s| < 8 || s[..5] != MAGIC[..5] then None
    else
      var s1 := s[8..];
      if |s1| < MAX_D then None
      else ParseDirs(bytes, DecFlags(s1[..MAX_D]), s1[MAX_D..])
  }

  function ParseDirs(bytes: nat, dused: seq<bool>, s: seq<byte>): Option<(Fs, seq<byte>)> {
    match DecNames(s, MAX_D)
    case None => None
    case Some((dname, s1)) =>
      if |s1| < MAX_F then None
      else
        var fused := DecFlags(s1[..MAX_F]);
        match DecSizes(s1[MAX_F..], MAX_F)
        case None => None
        case Some((sizes, s2)) => ParseFiles(bytes, dused, dname, fused, sizes, s2)
  }

  function ParseFiles(bytes: nat, dused: seq<bool>, dname: seq<Text>, fused: seq<bool>, sizes: seq<nat>, s: seq<byte>)
    : Option<(Fs, seq<byte>)>
  {
    if |fused| != |sizes| then None
    else
      match DecNames(s, MAX_F)
      case None => None
      case Some((fname, s1)) =>
        match DecData(bytes, 0, fused, sizes, s1)
        case None => None
        case Some((data, s2)) => ParseEnd(Fs(dused, dname, [], [], fused, fname, [], [], data, []), s2)
  }

  /** The cwd, then the ownership section. */
  function ParseEnd(t: Fs, s: seq<byte>): Option<(Fs, seq<byte>)> {
    if |s| < NAME_CAP then None else ParseOwners(t.(cwd := CString(s[..NAME_CAP])), s[NAME_CAP..])
  }

  function ParseOwners(t: Fs, s: seq<byte>): Option<(Fs, seq<byte>)> {
    var d := DecOwners(s, MAX_D);
    var f := if d.complete then DecOwners(d.rest, MAX_F) else DefaultOwners(MAX_F, d.rest, false);
    Some((t.(downer := d.owner, dmode := d.mode, fowner := f.owner, fmode := f.mode), f.rest))
  }

  // ----------------------------------------------------------------- round trip

  /** What every reachable file system satisfies and the image relies on. */
  ghost predicate Storable(t: Fs) {
    && Shape(t)
    && GoodNames(t.dname) && GoodNames(t.fname) && GoodName(t.cwd)
    && (forall i :: 0 <= i < MAX_F ==> |t.data[i]| < MAX_FILE_DATA && (!t.fused[i] ==> t.data[i] == []))
    && GoodOwners(t.downer, t.dmode) && GoodOwners(t.fowner, t.fmode)
  }

  ghost predicate GoodName(n: Text) {
    |n| <= PATH_MAX && 0 !in n
  }

  ghost predicate GoodNames(names: seq<Text>) {
    forall i :: 0 <= i < |names| ==> GoodName(names[i])
  }

  ghost predicate GoodOwners(owner: seq<int>, mode: seq<int>) {
    && |owner| == |mode|
    && forall i :: 0 <= i < |owner| ==> -HALF32 <= owner[i] < HALF32 && 0 <= mode[i] < 0x1_0000
  }

  lemma FlagsBack(used: seq<bool>)
    ensures DecFlags(EncFlags(used)) == used
  {
  }

  lemma PadBack(name: Text)
    requires GoodName(name)
    ensures |Pad(name)| == NAME_CAP && CString(Pad(name)) == name
  {
    CStringPad(name, Zeros(NAME_CAP - |name|));
  }

  lemma {:induction false} NamesBack(names: seq<Text>, rest: seq<byte>)
    requires GoodNames(names)
    ensures DecNames(EncNames(names) + rest, |names|) == Some((names, rest))
  {
    hide CString, Pad;
    if names == [] {
      assert EncNames(names) + rest == rest;
    } else {
      PadBack(names[0]);
      NamesBack(names[1..], rest);
      var s := EncNames(names) + rest;
      assert s == Pad(names[0]) + (EncNames(names[1..]) + rest);
      assert s[..NAME_CAP] == Pad(names[0]) && s[NAME_CAP..] == EncNames(names[1..]) + rest;
      assert names == [names[0]] + names[1..];
    }
  }

  function Lengths(data: seq<seq<byte>>): seq<nat> {
    seq(|data|, i requires 0 <= i < |data| => |data[i]|)
  }

  lemma FrontBack(a: seq<byte>, b: seq<byte>, c: seq<byte>)
    ensures (a + b + c)[..|a|] == a && (a + b + c)[|a|..] == b + c
  {
  }

  lemma {:induction false} SizesBack(data: seq<seq<byte>>, rest: seq<byte>)
    requires forall i :: 0 <= i < |data| ==> |data[i]| < MAX_FILE_DATA
    ensures DecSizes(EncSizes(data) + rest, |data|) == Some((Lengths(data), rest))
  {
    hide Le32, Un32, Wrap32;
    if data == [] {
      assert EncSizes(data) + rest == rest;
    } else {
      var v := |data[0]|;
      Un32Le32(v);
      WrapSelf(v);
      SizesBack(data[1..], rest);
      var s := EncSizes(data) + rest;
      FrontBack(Le32(v), EncSizes(data[1..]), rest);
      assert Lengths(data) == [v] + Lengths(data[1..]);
    }
  }

  /** The data section comes back exactly when the pool has room for every file. */
  lemma {:induction false} DataBack(bytes: nat, tail: nat, used: seq<bool>, data: seq<seq<byte>>, rest: seq<byte>)
    requires |used| == |data| && forall i :: 0 <= i < |data| && !used[i] ==> data[i] == []
    ensures DecData(bytes, tail, used, Lengths(data), EncData(used, data) + rest) ==
      if Reloads(bytes, tail, used, data) then Some((data, rest)) else None
    decreases |data|
  {
    hide NextTail;
    var s := EncData(used, data) + rest;
    if data == [] {
      assert s == rest;
    } else {
      assert Lengths(data)[1..] == Lengths(data[1..]);
      var s' := EncData(used[1..], data[1..]) + rest;
      assert s == (if used[0] then data[0] else []) + s';
      if !used[0] || data[0] == [] {
        assert s == s';
        DataBack(bytes, tail, used[1..], data[1..], rest);
        assert data == [[]] + data[1..];
      } else {
        assert s[..|data[0]|] == data[0] && s[|data[0]|..] == s';
        var t := NextTail(bytes, tail, |data[0]|);
        if t.Some? {
          DataBack(bytes, t.value, used[1..], data[1..], rest);
          assert data == [data[0]] + data[1..];
        }
      }
    }
  }

  lemma SignedBack(x: int)
    requires -HALF32 <= x < HALF32
    ensures Signed32(Wrap32(x)) == x
  {
  }

  lemma {:induction false} OwnersBack(owner: seq<int>, mode: seq<int>, rest: seq<byte>)
    requires GoodOwners(owner, mode)
    ensures DecOwners(EncOwners(owner, mode) + rest, |owner|) == Owners(owner, mode, rest, true)
    decreases |owner|
  {
    hide Le32, Un32, Le16, Un16, Wrap32, Signed32, DecOwners;
    if owner == [] {
      assert EncOwners(owner, mode) + rest == rest;
      DecNoOwners(rest);
    } else {
      var o, m := Le32(Wrap32(owner[0])), Le16(mode[0] % 0x1_0000);
      var tail := EncOwners(owner[1..], mode[1..]);
      Un32Le32(Wrap32(owner[0]));
      SignedBack(owner[0]);
      Un16Le16(mode[0]);
      OwnersBack(owner[1..], mode[1..], rest);
      Regrouped(o, m, tail, rest);
      DecOneOwner(o, m, tail + rest, |owner|);
      assert owner == [owner[0]] + owner[1..] && mode == [mode[0]] + mode[1..];
    }
  }

  lemma DecNoOwners(s: seq<byte>)
    ensures DecOwners(s, 0) == Owners([], [], s, true)
  {
  }

  lemma DecOneOwner(o: seq<byte>, m: seq<byte>, tail: seq<byte>, n: nat)
    requires |o| == 4 && |m| == 2 && n > 0
    ensures DecOwners(o + m + tail, n) ==
      var r := DecOwners(tail, n - 1); r.(owner := [Signed32(Un32(o))] + r.owner, mode := [Un16(m)] + r.mode)
  {
    hide Un32, Un16, Signed32;
    var s := o + m + tail;
    assert s[..4] == o && s[4..6] == m && s[6..] == tail;
  }

  lemma Regrouped(a: seq<byte>, b: seq<byte>, c: seq<byte>, d: seq<byte>)
    ensures a + b + c + d == a + b + (c + d)
  {
  }

  lemma OwnersSectionBack(t: Fs, rest: seq<byte>)
    requires Storable(t)
    ensures ParseOwners(t, EncOwners(t.downer, t.dmode) + (EncOwners(t.fowner, t.fmode) + rest)) == Some((t, rest))
  {
    hide DecOwners, EncOwners;
    OwnersBack(t.downer, t.dmode, EncOwners(t.fowner, t.fmode) + rest);
    OwnersBack(t.fowner, t.fmode, rest);
  }

  lemma FilesSectionBack(bytes: nat, t: Fs, owners: seq<byte>)
    requires Storable(t)
    ensures ParseFiles(bytes, t.dused, t.dname, t.fused, Lengths(t.data),
      EncNames(t.fname) + (EncData(t.fused, t.data) + (Pad(t.cwd) + owners)))
      == if Reloads(bytes, 0, t.fused, t.data) then ParseOwners(t, owners) else None
  {
    hide DecNames, EncNames, DecData, EncData, Reloads, DecOwners, EncOwners, Pad, CString, ParseOwners;
    var s3 := Pad(t.cwd) + owners;
    var s2 := EncData(t.fused, t.data) + s3;
    NamesBack(t.fname, s2);
    DataBack(bytes, 0, t.fused, t.data, s3);
    PadBack(t.cwd);
    assert s3[..NAME_CAP] == Pad(t.cwd) && s3[NAME_CAP..] == owners;
    ParseOwnersIgnores(t, owners);
  }

  lemma ParseOwnersIgnores(t: Fs, s: seq<byte>)
    ensures ParseOwners(t.(downer := [], dmode := [], fowner := [], fmode := []), s) == ParseOwners(t, s)
  {
  }

  /** Everything before the ownership section. */
  function BodyImage(t: Fs): seq<byte>
    requires Shape(t)
  {
    DirImage(t) + FileImage(t) + (EncData(t.fused, t.data) + Pad(t.cwd))
  }

  lemma BodyBack(bytes: nat, t: Fs, owners: seq<byte>)
    requires Storable(t)
    ensures Parse(bytes, BodyImage(t) + owners) == if Reloads(bytes, 0, t.fused, t.data) then ParseOwners(t, owners) else None
  {
    hide DecNames, EncNames, DecSizes, EncSizes, EncData, Reloads, Pad, ParseFiles, ParseOwners, EncFlags, DecFlags;
    var s5 := EncNames(t.fname) + (EncData(t.fused, t.data) + (Pad(t.cwd) + owners));
    var s4 := EncSizes(t.data) + s5;
    var s3 := EncFlags(t.fused) + s4;
    var s2 := EncNames(t.dname) + s3;
    var s1 := EncFlags(t.dused) + s2;
    assert BodyImage(t) + owners == MAGIC + s1;
    assert (MAGIC + s1)[..5] == MAGIC[..5] && (MAGIC + s1)[8..] == s1;
    assert s1[..MAX_D] == EncFlags(t.dused) && s1[MAX_D..] == s2;
    FlagsBack(t.dused);
    NamesBack(t.dname, s3);
    assert s3[..MAX_F] == EncFlags(t.fused) && s3[MAX_F..] == s4;
    FlagsBack(t.fused);
    SizesBack(t.data, s5);
    FilesSectionBack(bytes, t, owners);
  }

  /** The round trip: whatever follows it in the stream, the image of a storable file
      system parses back to the same tables exactly when its files fit a fresh pool
      one after the other. */
  lemma ParseSerialize(bytes: nat, t: Fs, rest: seq<byte>)
    requires Storable(t)
    ensures Parse(bytes, Serialize(t) + rest) == if Reloads(bytes, 0, t.fused, t.data) then Some((t, rest)) else None
  {
    hide Parse, DirImage, FileImage, EncData, EncOwners, Pad, Reloads, ParseOwners;
    BodyBack(bytes, t, EncOwners(t.downer, t.dmode) + (EncOwners(t.fowner, t.fmode) + rest));
    OwnersSectionBack(t, rest);
    assert Serialize(t) + rest == BodyImage(t) + (EncOwners(t.downer, t.dmode) + (EncOwners(t.fowner, t.fmode) + rest));
  }

  /** An image from before there were owners still loads: everything belongs to root with
      mode 0755. */
  lemma OldImageLoads(bytes: nat, t: Fs)
    requires Storable(t)
    ensures Parse(bytes, BodyImage(t)) ==
      if Reloads(bytes, 0, t.fused, t.data)
      then Some((t.(downer := seq(64, _ => 0), dmode := seq(64, _ => 0x1ED), fowner := seq(96, _ => 0), fmode := seq(96, _ => 0x1ED)), []))
      else None
  {
    BodyBack(bytes, t, []);
    hide Parse, BodyImage, Reloads;
    assert BodyImage(t) + [] == BodyImage(t);
  }

  // ------------------------------------------------------------- what is refused

  /** The little-endian word at position `i` of a stream. */
  function WordAt(s: seq<byte>, i: nat): nat
    requires i + 4 <= |s|
  {
    s[i] as nat + 256 * s[i + 1] as nat + 65536 * s[i + 2] as nat + 16777216 * s[i + 3] as nat
  }

  lemma {:induction false} NamesTaken(s: seq<byte>, n: nat)
    ensures DecNames(s, n).Some? <==> 256 * n <= |s|
    ensures DecNames(s, n).Some? ==> DecNames(s, n).value.1 == s[256 * n..]
    decreases n
  {
    hide CString;
    if n == 0 {
      assert s[0..] == s;
    } else if |s| >= 256 {
      NamesTaken(s[256..], n - 1);
      if 256 * n <= |s| { assert s[256..][256 * (n - 1)..] == s[256 * n..]; }
    }
  }

  /** The k-th word of a row of words that starts at `from`. */
  function RowWord(s: seq<byte>, from: nat, k: nat): nat
    requires from + 4 * k + 4 <= |s|
  {
    WordAt(s, from + 4 * k)
  }

  lemma {:induction false} SizesTaken(s: seq<byte>, n: nat)
    ensures DecSizes(s, n).Some? <==> 4 * n <= |s| && forall k :: 0 <= k < n ==> RowWord(s, 0, k) < MAX_FILE_DATA
    ensures DecSizes(s, n).Some? ==> DecSizes(s, n).value.1 == s[4 * n..]
    decreases n
  {
    if n == 0 {
      assert s[0..] == s;
    } else if |s| >= 4 {
      assert Un32(s[..4]) == RowWord(s, 0, 0);
      SizesTaken(s[4..], n - 1);
      if 4 * n <= |s| {
        assert s[4..][4 * (n - 1)..] == s[4 * n..];
        forall k | 0 <= k < n - 1 ensures RowWord(s[4..], 0, k) == RowWord(s, 0, k + 1) { }
        assert forall k :: 1 <= k < n ==> RowWord(s, 0, k) == RowWord(s[4..], 0, k - 1);
      }
      hide RowWord, Un32;
    }
  }

  const SIZES_AT: nat := 8 + 64 + 64 * 256 + 96   // behind magic, flags, names and flags
  const FILES_AT: nat := SIZES_AT + 96 * 4 + 96 * 256

  /** A stream is refused unless it starts with the magic, has version 4, holds all tables
      and the cwd, and gives every file a size below the limit. */
  lemma ParseRefuses(bytes: nat, s: seq<byte>)
    requires Parse(bytes, s).Some?
    ensures |s| >= FILES_AT + 256
    ensures s[0] == 84 && s[1] == 74 && s[2] == 70 && s[3] == 83 && s[4] == 4
    ensures forall k :: 0 <= k < 96 ==> RowWord(s, SIZES_AT, k) < 0x200_0000
  {
    hide DecNames, DecSizes, DecData, DecFlags, ParseOwners, CString, RowWord;
    assert forall i :: 0 <= i < 5 ==> s[i] == s[..5][i] == MAGIC[..5][i];
    var s2 := s[8..][64..];
    assert s2 == s[72..];
    NamesTaken(s2, 64);
    assert s2[16384..] == s[16456..];
    var s3 := s[16456..][96..];
    assert s3 == s[16552..];
    SizesTaken(s3, 96);
    forall k | 0 <= k < 96 ensures RowWord(s, SIZES_AT, k) == RowWord(s3, 0, k) { RowShift(s, 16552, k); }
    assert s3[384..] == s[16936..];
    NamesTaken(s[16936..], 96);
    assert s[16936..][24576..] == s[41512..];
    DataTaken(bytes, 0, DecFlags(s[16456..][..96]), DecSizes(s3, 96).value.0, s[41512..]);
  }

  lemma RowShift(s: seq<byte>, from: nat, k: nat)
    requires from + 4 * k + 4 <= |s|
    ensures RowWord(s[from..], 0, k) == RowWord(s, from, k)
  {
  }

  lemma {:induction false} DataTaken(bytes: nat, tail: nat, used: seq<bool>, sizes: seq<nat>, s: seq<byte>)
    requires |used| == |sizes|
    ensures DecData(bytes, tail, used, sizes, s).Some? ==> |DecData(bytes, tail, used, sizes, s).value.1| <= |s|
    decreases |sizes|
  {
    if sizes == [] {
    } else if !used[0] || sizes[0] == 0 {
      DataTaken(bytes, tail, used[1..], sizes[1..], s);
    } else {
      match NextTail(bytes, tail, sizes[0])
      case None =>
      case Some(tail') => if |s| >= sizes[0] { DataTaken(bytes, tail', used[1..], sizes[1..], s[sizes[0]..]); }
    }
  }

  // ------------------------------------------------------------ where things are

  lemma {:induction false} NamesLength(names: seq<Text>)
    ensures |EncNames(names)| == 256 * |names|
  {
    hide Pad;
    if names == [] {
    } else {
      NamesLength(names[1..]);
    }
  }

  lemma {:induction false} SizesLength(data: seq<seq<byte>>)
    ensures |EncSizes(data)| == 4 * |data|
  {
    hide Le32, Wrap32;
    if data == [] {
    } else {
      SizesLength(data[1..]);
    }
  }

  /** A 256-byte slot with a name and zeros behind it. */
  ghost predicate NameAt(s: seq<byte>, at: nat, name: Text) {
    && at + 256 <= |s| && |name| <= 256 && s[at..at + |name|] == name
    && forall j :: at + |name| <= j < at + 256 ==> s[j] == 0
  }

  lemma NameMoved(s: seq<byte>, from: nat, block: seq<byte>, at: nat, name: Text)
    requires from + |block| <= |s| && s[from..from + |block|] == block && NameAt(block, at, name)
    ensures NameAt(s, from + at, name)
  {
    forall j | 0 <= j < 256 ensures s[from + at + j] == if j < |name| then name[j] else 0 {
      assert s[from..from + |block|][at + j] == block[at + j];
      if j < |name| { assert block[at..at + |name|][j] == name[j]; }
    }
    forall j | from + at + |name| <= j < from + at + 256 ensures s[j] == 0 { assert s[from + at + (j - from - at)] == 0; }
  }

  lemma {:induction false} NamesPlaced(names: seq<Text>, i: nat)
    requires i < |names| && |names[i]| < 256
    ensures NameAt(EncNames(names), 256 * i, names[i])
  {
    var head, back := Pad(names[0]), EncNames(names[1..]);
    NamesLength(names);
    if i == 0 {
      assert (head + back)[..|names[0]|] == names[0];
    } else {
      NamesPlaced(names[1..], i - 1);
      hide NameAt, Pad;
      assert (head + back)[256..256 + |back|] == back;
      NameMoved(head + back, 256, back, 256 * (i - 1), names[i]);
    }
  }

  lemma {:induction false} SizesPlaced(data: seq<seq<byte>>, k: nat)
    requires k < |data|
    ensures 4 * k + 4 <= |EncSizes(data)| && RowWord(EncSizes(data), 0, k) == |data[k]| % 0x1_0000_0000
  {
    var head, back := Le32(Wrap32(|data[0]|)), EncSizes(data[1..]);
    SizesLength(data);
    hide Le32;
    if k == 0 {
      assert (head + back)[..4] == head;
    } else {
      SizesPlaced(data[1..], k - 1);
      assert (head + back)[4..] == back;
      assert RowWord(back, 0, k - 1) == RowWord(head + back, 0, k);
    }
  }

  lemma RowMoved(s: seq<byte>, from: nat, block: seq<byte>, k: nat)
    requires from + |block| <= |s| && s[from..from + |block|] == block && 4 * k + 4 <= |block|
    ensures RowWord(s, from, k) == RowWord(block, 0, k)
  {
    var b := s[from..from + |block|];
    assert b[4 * k] == s[from + 4 * k] && b[4 * k + 1] == s[from + 4 * k + 1];
    assert b[4 * k + 2] == s[from + 4 * k + 2] && b[4 * k + 3] == s[from + 4 * k + 3];
  }

  /** The blocks of an image, each at its own place. */
  lemma Blocks(t: Fs)
    requires Shape(t)
    ensures var s := Serialize(t);
      && |s| >= 41512 && s[..8] == MAGIC
      && s[8..72] == EncFlags(t.dused) && s[72..16456] == EncNames(t.dname)
      && s[16456..16552] == EncFlags(t.fused) && s[16552..16936] == EncSizes(t.data) && s[16936..41512] == EncNames(t.fname)
  {
    NamesLength(t.dname);
    NamesLength(t.fname);
    SizesLength(t.data);
    hide EncFlags, EncNames, EncSizes, TailImage;
    var s, d, f := Serialize(t), DirImage(t), FileImage(t);
    assert s[..16456] == d && s[16456..41512] == f;
    assert s[..8] == d[..8] && s[8..72] == d[8..72] && s[72..16456] == d[72..16456];
    assert s[16456..16552] == f[..96] && s[16552..16936] == f[96..480] && s[16936..41512] == f[480..];
  }

  /** The fixed part of every image, byte by byte: letters and version, one byte a slot for
      what is in use, names in slots of 256, sizes as words. */
  lemma ImageLayout(t: Fs, d: nat, f: nat)
    requires Shape(t) && d < 64 && f < 96 && |t.dname[d]| < 256 && |t.fname[f]| < 256
    ensures var s := Serialize(t);
      && |s| >= 41512
      && s[0] == 84 && s[1] == 74 && s[2] == 70 && s[3] == 83 && s[4] == 4 && s[5] == 0 && s[6] == 0 && s[7] == 0
      && s[8 + d] == (if t.dused[d] then 1 else 0) && NameAt(s, 72 + 256 * d, t.dname[d])
      && s[16456 + f] == (if t.fused[f] then 1 else 0) && NameAt(s, 16936 + 256 * f, t.fname[f])
      && RowWord(s, 16552, f) == |t.data[f]| % 0x1_0000_0000
  {
    hide Serialize, EncNames, EncSizes, EncFlags, NameAt, RowWord, Pad;
    Blocks(t);
    var s := Serialize(t);
    assert forall j :: 0 <= j < 8 ==> s[j] == s[..8][j] == MAGIC[j];
    FlagsLaid(s, 8, t.dused, d);
    FlagsLaid(s, 16456, t.fused, f);
    NamesLaid(s, 72, t.dname, d);
    NamesLaid(s, 16936, t.fname, f);
    SizesLaid(s, 16552, t.data, f);
  }

  lemma FlagsLaid(s: seq<byte>, from: nat, used: seq<bool>, i: nat)
    requires i < |used| && from + |used| <= |s| && s[from..from + |used|] == EncFlags(used)
    ensures s[from + i] == if used[i] then 1 else 0
  {
    assert s[from + i] == s[from..from + |used|][i];
  }

  lemma NamesLaid(s: seq<byte>, from: nat, names: seq<Text>, i: nat)
    requires i < |names| && |names[i]| < 256
    requires from + 256 * |names| <= |s| && s[from..from + 256 * |names|] == EncNames(names)
    ensures NameAt(s, from + 256 * i, names[i])
  {
    hide EncNames, NameAt;
    NamesLength(names);
    NamesPlaced(names, i);
    NameMoved(s, from, EncNames(names), 256 * i, names[i]);
  }

  lemma SizesLaid(s: seq<byte>, from: nat, data: seq<seq<byte>>, k: nat)
    requires k < |data| && from + 4 * |data| <= |s| && s[from..from + 4 * |data|] == EncSizes(data)
    ensures RowWord(s, from, k) == |data[k]| % 0x1_0000_0000
  {
    hide EncSizes, RowWord;
    SizesLength(data);
    SizesPlaced(data, k);
    RowMoved(s, from, EncSizes(data), k);
  }

  // --------------------------------------------------- when a pool has the room

  /** Pool bytes needed by the used non-empty files: header and rounded payload. */
  function Need(used: seq<bool>, data: seq<seq<byte>>): nat
    requires |used| == |data|
    decreases |data|
  {
    if data == [] then 0
    else (if used[0] && data[0] != [] then BlockNeed(|data[0]|) else 0) + Need(used[1..], data[1..])
  }

  function BlockNeed(size: nat): nat {
    HDR + Round4(size + 1)
  }

  /** The same without the last such file. */
  function NeedButLast(used: seq<bool>, data: seq<seq<byte>>): nat
    requires |used| == |data|
    decreases |data|
  {
    if data == [] || Need(used[1..], data[1..]) == 0 then 0
    else (if used[0] && data[0] != [] then BlockNeed(|data[0]|) else 0) + NeedButLast(used[1..], data[1..])
  }

  /** The exact condition, in closed form: the files fit, and all but the last leave
      at least 24 bytes, because a smaller rest is swallowed by the block before it. */
  lemma {:induction false} ReloadsExactly(bytes: nat, tail: nat, used: seq<bool>, data: seq<seq<byte>>)
    requires |used| == |data| && tail <= bytes
    ensures Reloads(bytes, tail, used, data) <==>
      Need(used, data) == 0 ||
      (tail + Need(used, data) <= bytes &&
       (NeedButLast(used, data) == 0 || tail + NeedButLast(used, data) + MIN_SPLIT <= bytes))
    decreases |data|
  {
    hide Round4;
    if data == [] {
    } else {
      if !used[0] || data[0] == [] {
        ReloadsExactly(bytes, tail, used[1..], data[1..]);
      } else {
        match NextTail(bytes, tail, |data[0]|)
        case None =>
        case Some(tail') => ReloadsExactly(bytes, tail', used[1..], data[1..]);
      }
    }
  }

  /** In particular, any file system that leaves 24 bytes of the pool reloads. */
  lemma SlackReloads(bytes: nat, used: seq<bool>, data: seq<seq<byte>>)
    requires |used| == |data| && Need(used, data) + MIN_SPLIT <= bytes
    ensures Reloads(bytes, 0, used, data)
  {
    ReloadsExactly(bytes, 0, used, data);
    NeedButLastLess(used, data);
  }

  lemma {:induction false} NeedButLastLess(used: seq<bool>, data: seq<seq<byte>>)
    requires |used| == |data|
    ensures NeedButLast(used, data) <= Need(used, data)
    decreases |data|
  {
    if data == [] {
    } else {
      NeedButLastLess(used[1..], data[1..]);
    }
  }

  /** A full pool can fail to reload: with a small file in front the two fit, but with the
      big one in front the rest is too small to be kept apart from it, so the small file
      finds no block. */
  lemma FullPoolLost(bytes: nat, used: seq<bool>, data: seq<seq<byte>>)
    requires |used| == |data| >= 2 && used[0] && used[1] && data[0] != [] && data[1] != []
    requires forall i :: 2 <= i < |data| ==> data[i] == []
    requires BlockNeed(|data[1]|) < MIN_SPLIT <= BlockNeed(|data[0]|)
    requires BlockNeed(|data[0]|) + BlockNeed(|data[1]|) == bytes
    ensures !Reloads(bytes, 0, used, data)
    ensures Reloads(bytes, 0, used, data[0 := data[1]][1 := data[0]])
  {
    hide BlockNeed;
    NeedOfTwo(used, data);
    ReloadsExactly(bytes, 0, used, data);
    var swapped := data[0 := data[1]][1 := data[0]];
    NeedOfTwo(used, swapped);
    ReloadsExactly(bytes, 0, used, swapped);
  }

  lemma NeedOfTwo(used: seq<bool>, data: seq<seq<byte>>)
    requires |used| == |data| >= 2 && used[0] && used[1] && data[0] != [] && data[1] != []
    requires forall i :: 2 <= i < |data| ==> data[i] == []
    ensures Need(used, data) == BlockNeed(|data[0]|) + BlockNeed(|data[1]|) && NeedButLast(used, data) == BlockNeed(|data[0]|)
  {
    hide BlockNeed;
    BlockNeedPositive(|data[1]|);
    assert data[1..][1..] == data[2..] && used[1..][1..] == used[2..];
    NeedNothing(used[2..], data[2..]);
    assert Need(used[1..], data[1..]) == BlockNeed(|data[1]|) + Need(used[2..], data[2..]);
    assert NeedButLast(used[1..], data[1..]) == 0;
  }

  lemma BlockNeedPositive(size: nat)
    ensures BlockNeed(size) > HDR
  {
  }

  lemma {:induction false} NeedNothing(used: seq<bool>, data: seq<seq<byte>>)
    requires |used| == |data| && forall i :: 0 <= i < |data| ==> data[i] == []
    ensures Need(used, data) == 0
    decreases |data|
  {
    if data == [] {
    } else {
      NeedNothing(used[1..], data[1..]);
    }
  }
}
