/** Undo and redo of the editor: two rings of six snapshots that behave as a bounded
    undo stack and a redo stack. */
module Undo {
  import opened Words
  import opened GapBuffer

  const DEPTH: nat := 6

  datatype Snap = Snap(text: seq<byte>, pos: int, scroll: int)

  /** The editor as a value: what is on screen and the two stacks, newest last. */
  datatype History = History(now: Snap, undo: seq<Snap>, redo: seq<Snap>)

  // ---------------------------------------------------------------- stack form

  function Newest(s: seq<Snap>): (r: seq<Snap>)
    ensures |r| == Min(|s|, DEPTH)
  {
    if |s| <= DEPTH then s else s[|s| - DEPTH..]
  }

  /** A snapshot put back: the cursor may not lie past the text. */
  function Shown(s: Snap): Snap {
    s.(pos := if s.pos > |s.text| then |s.text| else s.pos)
  }

  function Pushed(h: History): History {
    History(h.now, Newest(h.undo + [h.now]), [])
  }

  function Undone(h: History): History {
    if h.undo == [] then h
    else History(Shown(h.undo[|h.undo| - 1]), h.undo[..|h.undo| - 1], h.redo + [h.now])
  }

  function Redone(h: History): History {
    if h.redo == [] then h
    else History(Shown(h.redo[|h.redo| - 1]), h.undo + [h.now], h.redo[..|h.redo| - 1])
  }

  /** Any edit between two snapshots. */
  function Edited(h: History, now: Snap): History {
    h.(now := now)
  }

  datatype Action = Push | Undo | Redo | Edit(now: Snap)

  function Act(h: History, a: Action): History {
    match a
    case Push => Pushed(h)
    case Undo => Undone(h)
    case Redo => Redone(h)
    case Edit(now) => Edited(h, now)
  }

  function Run(h: History, actions: seq<Action>): History
    decreases |actions|
  {
    if actions == [] then h else Run(Act(h, actions[0]), actions[1..])
  }

  /** Together the stacks never outgrow the six slots, so neither drops a snapshot. */
  lemma {:induction false} StacksBounded(h: History, actions: seq<Action>)
    requires |h.undo| + |h.redo| <= DEPTH
    ensures var h' := Run(h, actions); |h'.undo| + |h'.redo| <= DEPTH
    decreases |actions|
  {
    if actions == [] {
    } else {
      StacksBounded(Act(h, actions[0]), actions[1..]);
    }
  }

  function Repeat(a: Action, k: nat): (r: seq<Action>)
    ensures |r| == k && forall i :: 0 <= i < k ==> r[i] == a
  {
    seq(k, _ => a)
  }

  /** The texts of a history. */
  ghost predicate SameTexts(a: History, b: History) {
    && a.now.text == b.now.text && a.now.scroll == b.now.scroll
    && |a.undo| == |b.undo| && |a.redo| == |b.redo|
    && (forall i :: 0 <= i < |a.undo| ==> a.undo[i].text == b.undo[i].text && a.undo[i].scroll == b.undo[i].scroll)
    && (forall i :: 0 <= i < |a.redo| ==> a.redo[i].text == b.redo[i].text && a.redo[i].scroll == b.redo[i].scroll)
  }

  /** All cursors lie inside their texts. */
  ghost predicate CursorsInside(h: History) {
    && h.now.pos <= |h.now.text|
    && (forall i :: 0 <= i < |h.undo| ==> h.undo[i].pos <= |h.undo[i].text|)
    && (forall i :: 0 <= i < |h.redo| ==> h.redo[i].pos <= |h.redo[i].text|)
  }

  lemma {:induction false} RunAppend(h: History, a: seq<Action>, b: seq<Action>)
    ensures Run(h, a + b) == Run(Run(h, a), b)
    decreases |a|
  {
    if a == [] {
      assert a + b == b;
    } else {
      assert (a + b)[1..] == a[1..] + b;
      RunAppend(Act(h, a[0]), a[1..], b);
    }
  }

  /** k undos and then k redos give back every text, on screen and in both stacks, and
      the cursors too when they were inside their texts. */
  lemma {:induction false} UndoRedo(h: History, k: nat)
    requires k <= |h.undo|
    ensures var h' := Run(h, Repeat(Undo, k) + Repeat(Redo, k));
      SameTexts(h', h) && (CursorsInside(h) ==> h' == h)
    decreases k
  {
    if k == 0 {
    } else {
      var mid := Repeat(Undo, k - 1) + Repeat(Redo, k - 1);
      assert Repeat(Undo, k) + Repeat(Redo, k) == [Undo] + mid + [Redo];
      RunAppend(h, [Undo] + mid, [Redo]);
      RunAppend(h, [Undo], mid);
      RunOne(h, Undo);
      UndoRedo(Undone(h), k - 1);
      var back := Run(Undone(h), mid);
      RunOne(back, Redo);
      hide Run;
      assert CursorsInside(h) ==> CursorsInside(Undone(h));
      RedoUndone(h, back);
    }
  }

  lemma RunOne(h: History, a: Action)
    ensures Run(h, [a]) == Act(h, a)
  {
  }

  lemma RedoUndone(h: History, back: History)
    requires h.undo != [] && SameTexts(back, Undone(h)) && (CursorsInside(h) ==> back == Undone(h))
    ensures SameTexts(Redone(back), h) && (CursorsInside(h) ==> Redone(back) == h)
  {
  }

  /** Undo after a change shows the text from before it, whatever the change was. */
  lemma UndoRestores(h: History, now: Snap)
    ensures var h' := Undone(Edited(Pushed(h), now)); h'.now.text == h.now.text && h'.redo == [now]
  {
  }

  /** Changes, each recorded before it is made. */
  function Changes(edits: seq<Snap>): seq<Action> {
    if edits == [] then [] else [Push, Edit(edits[0])] + Changes(edits[1..])
  }

  /** What was on screen after the first `k` changes. */
  function After(h: History, edits: seq<Snap>, k: nat): Snap
    requires k <= |edits|
  {
    if k == 0 then h.now else edits[k - 1]
  }

  /** After any number of changes the last six can be undone one by one. */
  lemma SixUndone(h: History, edits: seq<Snap>, k: nat)
    requires k <= |edits| && k <= 6 && |h.undo| <= 6
    ensures Run(h, Changes(edits) + Repeat(Undo, k)).now.text == After(h, edits, |edits| - k).text
  {
    hide Run, Changes, Newest, Befores, Repeat;
    var h' := Run(h, Changes(edits));
    RunAppend(h, Changes(edits), Repeat(Undo, k));
    Recorded(h, edits);
    NewestLast(h.undo, Befores(h, edits), k);
    UndoShows(h', k);
    if k > 0 { BeforesAt(h, edits, |edits| - k); }
  }

  /** What was on screen before each change. */
  function Befores(h: History, edits: seq<Snap>): (r: seq<Snap>)
    ensures |r| == |edits|
  {
    if edits == [] then [] else Befores(h, edits[..|edits| - 1]) + [After(h, edits, |edits| - 1)]
  }

  lemma {:induction false} BeforesAt(h: History, edits: seq<Snap>, k: nat)
    requires k < |edits|
    ensures Befores(h, edits)[k] == After(h, edits, k)
  {
    if k < |edits| - 1 { BeforesAt(h, edits[..|edits| - 1], k); }
  }

  /** The undo stack then holds the newest of these. */
  lemma {:induction false} Recorded(h: History, edits: seq<Snap>)
    requires |h.undo| <= 6
    ensures var h' := Run(h, Changes(edits));
      h'.now == After(h, edits, |edits|) && h'.undo == Newest(h.undo + Befores(h, edits))
    decreases |edits|
  {
    if edits == [] {
      assert h.undo + Befores(h, edits) == h.undo;
    } else {
      var n := |edits| - 1;
      var front, last := edits[..n], edits[n];
      Recorded(h, front);
      assert edits == front + [last];
      ChangesSnoc(front, last);
      RunAppend(h, Changes(front), [Push, Edit(last)]);
      var mid := Run(h, Changes(front));
      RunTwo(mid, last);
      hide Run, Changes, Newest;
      assert h.undo + Befores(h, edits) == (h.undo + Befores(h, front)) + [mid.now];
      NewestSnoc(h.undo + Befores(h, front), mid.now);
    }
  }

  lemma NewestLast(s: seq<Snap>, x: seq<Snap>, k: nat)
    requires k <= |x| && k <= 6
    ensures k <= |Newest(s + x)| && (k > 0 ==> Newest(s + x)[|Newest(s + x)| - k] == x[|x| - k])
  {
  }

  lemma NewestSnoc(s: seq<Snap>, x: Snap)
    ensures Newest(Newest(s) + [x]) == Newest(s + [x])
  {
  }

  lemma {:induction false} ChangesSnoc(front: seq<Snap>, last: Snap)
    ensures Changes(front + [last]) == Changes(front) + [Push, Edit(last)]
  {
    if front == [] {
    } else {
      assert (front + [last])[1..] == front[1..] + [last];
      ChangesSnoc(front[1..], last);
    }
  }

  lemma RunTwo(h: History, now: Snap)
    ensures Run(h, [Push, Edit(now)]) == Edited(Pushed(h), now)
  {
    assert [Push, Edit(now)][1..] == [Edit(now)];
    RunOne(Pushed(h), Edit(now));
  }

  lemma {:induction false} UndoShows(h: History, k: nat)
    requires k <= |h.undo|
    ensures Run(h, Repeat(Undo, k)).now.text == if k == 0 then h.now.text else h.undo[|h.undo| - k].text
    decreases k
  {
    if k == 0 {
    } else {
      assert Repeat(Undo, k)[1..] == Repeat(Undo, k - 1);
      UndoShows(Undone(h), k - 1);
    }
  }

  // ------------------------------------------------------------------ ring form

  /** The slot of the `i`th oldest of `cnt` entries when the next free slot is `head`. */
  function Slot(head: nat, cnt: nat, i: nat): (r: nat)
    requires head < DEPTH && cnt <= DEPTH
    ensures r < DEPTH
  {
    (head + 6 - cnt + i) % 6
  }

  /** The entries of a ring, oldest first. */
  function Ring(ring: seq<Snap>, head: nat, cnt: nat): (r: seq<Snap>)
    requires |ring| == DEPTH && head < DEPTH && cnt <= DEPTH
    ensures |r| == cnt
  {
    seq(cnt, i requires 0 <= i < cnt => ring[Slot(head, cnt, i)])
  }

  lemma SlotMove(head: nat, cnt: nat, i: nat)
    requires head < DEPTH && cnt < DEPTH && i <= cnt
    ensures Slot((head + 1) % 6, cnt + 1, i) == Slot(head, cnt, i)
    ensures Slot(head, cnt, i) == head <==> i == cnt
  {
  }

  lemma SlotShift(head: nat, i: nat)
    requires head < DEPTH && i < DEPTH
    ensures Slot((head + 1) % 6, DEPTH, i) == Slot(head, DEPTH, i + 1)
    ensures Slot(head, DEPTH, i + 1) == head <==> i == 5
  {
  }

  lemma SlotBack(head: nat, cnt: nat, i: nat)
    requires head < DEPTH && 0 < cnt <= DEPTH && i < cnt
    ensures Slot((head + 5) % 6, cnt - 1, i) == Slot(head, cnt, i)
    ensures Slot(head, cnt, cnt - 1) == (head + 5) % 6
  {
  }

  /** Writing at the head and moving it on pushes; a full ring loses its oldest entry. */
  lemma RingPush(ring: seq<Snap>, head: nat, cnt: nat, s: Snap)
    requires |ring| == DEPTH && head < DEPTH && cnt <= DEPTH
    ensures Ring(ring[head := s], (head + 1) % 6, if cnt < DEPTH then cnt + 1 else cnt) == Newest(Ring(ring, head, cnt) + [s])
  {
    hide Slot;
    var cnt' := if cnt < DEPTH then cnt + 1 else cnt;
    var l, r := Ring(ring[head := s], (head + 1) % 6, cnt'), Newest(Ring(ring, head, cnt) + [s]);
    forall i | 0 <= i < cnt' ensures l[i] == r[i] {
      if cnt < DEPTH {
        SlotMove(head, cnt, i);
      } else {
        SlotShift(head, i);
        assert r[i] == (Ring(ring, head, cnt) + [s])[i + 1];
      }
    }
  }

  /** Moving the head back pops, and the popped entry is in the slot it moves to. */
  lemma RingPop(ring: seq<Snap>, head: nat, cnt: nat)
    requires |ring| == DEPTH && head < DEPTH && 0 < cnt <= DEPTH
    ensures Ring(ring, (head + 5) % 6, cnt - 1) == Ring(ring, head, cnt)[..cnt - 1]
    ensures ring[(head + 5) % 6] == Ring(ring, head, cnt)[cnt - 1]
  {
    hide Slot;
    SlotBack(head, cnt, cnt - 1);
    forall i | 0 <= i < cnt - 1 ensures Ring(ring, (head + 5) % 6, cnt - 1)[i] == Ring(ring, head, cnt)[i] {
      SlotBack(head, cnt, i);
    }
  }

  class Editor {
    const buffer: Buffer
    var pos: int
    var scroll: int
    var undoRing: seq<Snap>
    var undoCnt: nat
    var undoHead: nat
    var redoRing: seq<Snap>
    var redoCnt: nat
    var redoHead: nat

    ghost predicate Valid()
      reads this, buffer
    {
      && buffer.Valid()
      && |undoRing| == |redoRing| == DEPTH && undoHead < DEPTH && redoHead < DEPTH
      && undoCnt + redoCnt <= DEPTH
      && (forall i :: 0 <= i < DEPTH ==> |undoRing[i].text| <= MAX_TEXT - 1 && |redoRing[i].text| <= MAX_TEXT - 1)
    }

    ghost function View(): History
      requires Valid()
      reads this, buffer, buffer.data
    {
      History(Snap(buffer.Text(), pos, scroll), Ring(undoRing, undoHead, undoCnt), Ring(redoRing, redoHead, redoCnt))
    }

    constructor (buffer: Buffer)
      requires buffer.Valid()
      ensures Valid() && this.buffer == buffer && View() == History(Snap(buffer.Text(), 0, 0), [], [])
    {
      this.buffer := buffer;
      pos, scroll := 0, 0;
      undoRing, redoRing := seq(DEPTH, _ => Snap([], 0, 0)), seq(DEPTH, _ => Snap([], 0, 0));
      undoCnt, undoHead, redoCnt, redoHead := 0, 0, 0, 0;
    }

    method Snapshot() returns (s: Snap)
      requires buffer.Valid()
      ensures s == Snap(buffer.Text(), pos, scroll)
    {
      var flat := new byte[MAX_TEXT];
      buffer.Flatten(flat);
      s := Snap(flat[..buffer.len], pos, scroll);
    }

    /** `snap_restore`. */
    method Restore(s: Snap)
      requires buffer.Valid() && |s.text| <= MAX_TEXT - 1
      modifies this`pos, this`scroll, buffer, buffer.data
      ensures buffer.Valid() && Snap(buffer.Text(), pos, scroll) == Shown(s)
    {
      buffer.Restore(s.text);
      pos, scroll := s.pos, s.scroll;
      if pos > buffer.len { pos := buffer.len; }
    }

    /** `push_undo`. */
    method PushUndo()
      requires Valid()
      modifies this
      ensures Valid() && View() == Pushed(old(View()))
    {
      hide Ring, buffer.Valid, buffer.Text;
      var s := Snapshot();
      assert |s.text| <= MAX_TEXT - 1 by { TextFits(buffer); }
      RingPush(undoRing, undoHead, undoCnt, s);
      undoRing := undoRing[undoHead := s];
      undoHead := (undoHead + 1) % 6;
      if undoCnt < DEPTH { undoCnt := undoCnt + 1; }
      redoCnt, redoHead := 0, 0;
      assert Ring(redoRing, 0, 0) == [];
    }

    /** `do_undo`. */
    method DoUndo() returns (done: bool)
      requires Valid()
      modifies this, buffer, buffer.data
      ensures Valid() && View() == Undone(old(View())) && done == (old(View()).undo != [])
    {
      hide Ring, buffer.Valid, buffer.Text;
      if undoCnt == 0 { return false; }
      var s := Snapshot();
      assert |s.text| <= MAX_TEXT - 1 by { TextFits(buffer); }
      RingPush(redoRing, redoHead, redoCnt, s);
      redoRing := redoRing[redoHead := s];
      redoHead := (redoHead + 1) % 6;
      if redoCnt < DEPTH { redoCnt := redoCnt + 1; }
      RingPop(undoRing, undoHead, undoCnt);
      undoHead := (undoHead + 6 - 1) % 6;
      undoCnt := undoCnt - 1;
      Restore(undoRing[undoHead]);
      return true;
    }

    /** `do_redo`. */
    method DoRedo() returns (done: bool)
      requires Valid()
      modifies this, buffer, buffer.data
      ensures Valid() && View() == Redone(old(View())) && done == (old(View()).redo != [])
    {
      hide Ring, buffer.Valid, buffer.Text;
      if redoCnt == 0 { return false; }
      var s := Snapshot();
      assert |s.text| <= MAX_TEXT - 1 by { TextFits(buffer); }
      RingPush(undoRing, undoHead, undoCnt, s);
      undoRing := undoRing[undoHead := s];
      undoHead := (undoHead + 1) % 6;
      if undoCnt < DEPTH { undoCnt := undoCnt + 1; }
      RingPop(redoRing, redoHead, redoCnt);
      redoHead := (redoHead + 6 - 1) % 6;
      redoCnt := redoCnt - 1;
      Restore(redoRing[redoHead]);
      return true;
    }
  }

  lemma TextFits(buffer: Buffer)
    requires buffer.Valid()
    ensures |buffer.Text()| <= MAX_TEXT - 1
  {
  }
}
