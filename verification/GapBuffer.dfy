/** The text of the editor: a gap buffer that behaves as a plain sequence of bytes. */
module GapBuffer {
  import opened Words
  import Utf8

  const MAX_TEXT: nat := 524289

  function Clamp(pos: int, n: nat): nat {
    if pos < 0 then 0 else if pos > n then n else pos
  }

  function Insert(text: seq<byte>, pos: int, ch: byte): seq<byte> {
    text[..Clamp(pos, |text|)] + [ch] + text[Clamp(pos, |text|)..]
  }

  function Delete(text: seq<byte>, pos: int, count: int): seq<byte> {
    if count <= 0 || pos < 0 || pos >= |text| then text
    else if pos + count > |text| then text[..pos]
    else text[..pos] + text[pos + count..]
  }

  /** `insert_bytes`: byte by byte at successive positions, until the buffer is full. */
  function InsertRun(text: seq<byte>, pos: int, s: seq<byte>): seq<byte>
    decreases s
  {
    if s == [] || |text| >= MAX_TEXT - 1 then text else InsertRun(Insert(text, pos, s[0]), pos + 1, s[1..])
  }

  /** From a position that is not negative this is one splice of what fits. */
  lemma {:induction false} InsertRunSplices(text: seq<byte>, pos: int, s: seq<byte>)
    requires 0 <= pos && |text| <= MAX_TEXT - 1
    ensures var at, k := Clamp(pos, |text|), Min(|s|, MAX_TEXT - 1 - |text|);
      InsertRun(text, pos, s) == text[..at] + s[..k] + text[at..]
    decreases s
  {
    var at, k := Clamp(pos, |text|), Min(|s|, MAX_TEXT - 1 - |text|);
    if s == [] || |text| >= MAX_TEXT - 1 {
      assert text[..at] + [] + text[at..] == text;
    } else {
      var text' := Insert(text, pos, s[0]);
      InsertRunSplices(text', pos + 1, s[1..]);
      assert Clamp(pos + 1, |text'|) == at + 1 && Min(|s[1..]|, MAX_TEXT - 1 - |text'|) == k - 1;
      assert text'[..at + 1] == text[..at] + [s[0]] && text'[at + 1..] == text[at..];
      assert s[..k] == [s[0]] + s[1..][..k - 1];
      Regroup(text[..at], [s[0]], s[1..][..k - 1], text[at..]);
    }
  }

  /** Deleting takes out what lies between the two positions, as far as the text goes; from
      a position outside the text, or for no bytes, it does nothing. */
  lemma DeleteCuts(text: seq<byte>, pos: int, count: int)
    ensures |Delete(text, pos, count)| == |text| - if 0 <= pos < |text| && count > 0 then Min(count, |text| - pos) else 0
    ensures forall i :: 0 <= i < |Delete(text, pos, count)| ==>
      Delete(text, pos, count)[i] == text[if i < pos || pos < 0 || count <= 0 then i else i + count]
  {
  }

  /** Deleting what was inserted gives the old text back. */
  lemma DeleteInserted(text: seq<byte>, pos: nat, s: seq<byte>)
    requires pos <= |text| && |text| + |s| <= 524_288
    ensures InsertRun(text, pos, s) == text[..pos] + s + text[pos..]
    ensures Delete(InsertRun(text, pos, s), pos, |s|) == text
  {
    InsertRunSplices(text, pos, s);
    hide InsertRun;
    assert s[..|s|] == s;
    var grown := text[..pos] + s + text[pos..];
    assert grown[..pos] == text[..pos] && grown[pos + |s|..] == text[pos..];
  }

  /** Past the end, what is inserted is appended. */
  lemma InsertBehind(text: seq<byte>, pos: nat, s: seq<byte>)
    requires |text| <= pos && |text| + |s| <= 524_288
    ensures InsertRun(text, pos, s) == text + s
  {
    InsertRunSplices(text, pos, s);
    hide InsertRun;
    assert s[..|s|] == s && text[..|text|] == text;
  }

  /** Inserting what was deleted does so too. */
  lemma InsertDeleted(text: seq<byte>, pos: nat, count: nat)
    requires pos + count <= |text| <= 524_288
    ensures InsertRun(Delete(text, pos, count), pos, text[pos..pos + count]) == text
  {
    hide InsertRun;
    var shrunk := Delete(text, pos, count);
    assert shrunk == text[..pos] + text[pos + count..];
    InsertRunSplices(shrunk, pos, text[pos..pos + count]);
    assert shrunk[..pos] == text[..pos] && shrunk[pos..] == text[pos + count..];
    assert text == text[..pos] + text[pos..pos + count] + text[pos + count..];
  }

  lemma Regroup(a: seq<byte>, b: seq<byte>, c: seq<byte>, d: seq<byte>)
    ensures a + b + c + d == a + (b + c) + d == a + b + (c + d)
  {
  }

  function Reversed(s: seq<byte>): (r: seq<byte>)
    ensures |r| == |s|
  {
    if s == [] then [] else Reversed(s[1..]) + [s[0]]
  }

  /** From a negative position every byte is clamped anew, so the first `-pos` bytes come out
      reversed, behind the rest. No caller passes one. */
  lemma {:induction false} InsertRunNegative(text: seq<byte>, pos: int, s: seq<byte>)
    requires pos < 0 && |text| <= MAX_TEXT - 1
    ensures var k := Min(|s|, MAX_TEXT - 1 - |text|);
      var d := Min(k, -pos);
      InsertRun(text, pos, s) == s[d..k] + Reversed(s[..d]) + text
    decreases s
  {
    hide InsertRun, Reversed;
    var k := Min(|s|, MAX_TEXT - 1 - |text|);
    var d := Min(k, -pos);
    InsertRunStep(text, pos, s);
    if s == [] || |text| >= MAX_TEXT - 1 {
      assert s[d..k] == [] && s[..d] == [];
      ReversedStep([]);
    } else {
      var text', rest := [s[0]] + text, s[1..];
      var tail, front := s[d..k], s[..d];
      InsertFront(text, pos, s[0]);
      ShiftSlices(s, d, k);
      ReversedStep(front);
      if pos + 1 < 0 {
        InsertRunNegative(text', pos + 1, rest);
        Regroup(tail, Reversed(front[1..]), [s[0]], text);
      } else {
        InsertRunSplices(text', 0, rest);
        ReversedStep([]);
        assert text'[..0] + tail + text'[0..] == tail + ([] + [s[0]]) + text;
      }
    }
  }

  lemma InsertFront(text: seq<byte>, pos: int, ch: byte)
    requires pos < 0
    ensures Insert(text, pos, ch) == [ch] + text
  {
  }

  lemma ShiftSlices(s: seq<byte>, d: nat, k: nat)
    requires 1 <= d <= k <= |s|
    ensures s[1..][d - 1..k - 1] == s[d..k] && s[1..][..d - 1] == s[..d][1..] && s[..d][0] == s[0]
    ensures d == 1 ==> s[..d][1..] == [] && s[1..][..k - 1] == s[d..k]
  {
  }

  lemma InsertRunStep(text: seq<byte>, pos: int, s: seq<byte>)
    ensures InsertRun(text, pos, s) ==
      if s == [] || |text| >= MAX_TEXT - 1 then text else InsertRun(Insert(text, pos, s[0]), pos + 1, s[1..])
  {
  }

  lemma ReversedStep(s: seq<byte>)
    ensures Reversed(s) == if s == [] then [] else Reversed(s[1..]) + [s[0]]
  {
  }

  /** The bytes before and behind a gap. */
  ghost function TextOf(d: seq<byte>, start: nat, end: nat, top: nat): (t: seq<byte>)
    requires start <= end <= top <= |d|
    ensures |t| == start + top - end
  {
    d[..start] + d[end..top]
  }

  /** Moving the last `n` bytes before the gap behind it keeps the text. */
  lemma MovedLeft(d: seq<byte>, d': seq<byte>, start: nat, end: nat, n: nat, top: nat)
    requires n <= start <= end <= top <= |d| == |d'|
    requires forall x :: end - n <= x < end ==> d'[x] == d[x - (end - n) + (start - n)]
    requires forall x :: 0 <= x < end - n || end <= x < |d| ==> d'[x] == d[x]
    ensures TextOf(d', start - n, end - n, top) == TextOf(d, start, end, top)
  {
    assert d'[..start - n] == d[..start - n];
    assert d'[end - n..top] == d[start - n..start] + d[end..top];
  }

  lemma MovedRight(d: seq<byte>, d': seq<byte>, start: nat, end: nat, n: nat, top: nat)
    requires start <= end && end + n <= top <= |d| == |d'|
    requires forall x :: start <= x < start + n ==> d'[x] == d[x - start + end]
    requires forall x :: 0 <= x < start || start + n <= x < |d| ==> d'[x] == d[x]
    ensures TextOf(d', start + n, end + n, top) == TextOf(d, start, end, top)
  {
    assert d'[..start + n] == d[..start] + d[end..end + n];
    assert d'[end + n..top] == d[end + n..top];
  }

  class Buffer {
    const data: array<byte>
    var gapStart: int
    var gapEnd: int
    var len: int

    /** The gap and the text together fill all but the last byte. */
    ghost predicate Valid()
      reads this
    {
      data.Length == MAX_TEXT && 0 <= gapStart <= gapEnd && gapStart <= len && len + (gapEnd - gapStart) == MAX_TEXT - 1
    }

    ghost function Text(): (t: seq<byte>)
      requires Valid()
      reads this, data
      ensures |t| == len
    {
      TextOf(data[..], gapStart, gapEnd, MAX_TEXT - 1)
    }

    constructor ()
      ensures Valid() && Text() == [] && fresh(data)
    {
      data := new byte[MAX_TEXT];
      gapStart, gapEnd, len := 0, MAX_TEXT - 1, 0;
    }

    /** `text_at`. */
    method At(pos: int) returns (ch: byte)
      requires Valid()
      ensures ch == if 0 <= pos < |Text()| then Text()[pos] else 0
    {
      if pos < 0 || pos >= len { return 0; }
      if pos < gapStart { return data[pos]; }
      ch := data[pos + (gapEnd - gapStart)];
    }

    /** `move_gap`: the text stays, the gap opens at the clamped position. */
    method MoveGap(to: int)
      requires Valid()
      modifies this`gapStart, this`gapEnd, data
      ensures Valid() && Text() == old(Text()) && gapStart == Clamp(to, len)
    {
      var pos := to;
      if pos < 0 { pos := 0; }
      if pos > len { pos := len; }
      if pos == gapStart { return; }
      if pos < gapStart {
        GapLeft(pos);
      } else {
        GapRight(pos);
      }
    }

    /** Bytes before the gap move behind it, last byte first. */
    method GapLeft(pos: nat)
      requires Valid() && pos < gapStart
      modifies this`gapStart, this`gapEnd, data
      ensures Valid() && Text() == old(Text()) && gapStart == pos
    {
      hide TextOf;
      var n := gapStart - pos;
      CopyUp(gapEnd - n, pos, n);
      MovedLeft(old(data[..]), data[..], gapStart, gapEnd, n, MAX_TEXT - 1);
      gapStart := gapStart - n;
      gapEnd := gapEnd - n;
    }

    /** An overlapping copy to higher addresses, last byte first. */
    method CopyUp(dst: nat, src: nat, n: nat)
      requires src <= dst && dst + n <= data.Length
      modifies data
      ensures forall x :: dst <= x < dst + n ==> data[x] == old(data[x - dst + src])
      ensures forall x :: 0 <= x < dst || dst + n <= x < data.Length ==> data[x] == old(data[x])
    {
      var i := n - 1;
      while i >= 0
        invariant -1 <= i < n
        invariant forall x :: dst + i < x < dst + n ==> data[x] == old(data[x - dst + src])
        invariant forall x :: 0 <= x <= dst + i || dst + n <= x < data.Length ==> data[x] == old(data[x])
      {
        data[dst + i] := data[src + i];
        i := i - 1;
      }
    }

    /** An overlapping copy to lower addresses, first byte first. */
    method CopyDown(dst: nat, src: nat, n: nat)
      requires dst <= src && src + n <= data.Length
      modifies data
      ensures forall x :: dst <= x < dst + n ==> data[x] == old(data[x - dst + src])
      ensures forall x :: 0 <= x < dst || dst + n <= x < data.Length ==> data[x] == old(data[x])
    {
      for i := 0 to n
        invariant forall x :: dst <= x < dst + i ==> data[x] == old(data[x - dst + src])
        invariant forall x :: 0 <= x < dst || dst + i <= x < data.Length ==> data[x] == old(data[x])
      {
        data[dst + i] := data[src + i];
      }
    }

    /** Bytes behind the gap move before it, first byte first. */
    method GapRight(pos: nat)
      requires Valid() && gapStart < pos <= len
      modifies this`gapStart, this`gapEnd, data
      ensures Valid() && Text() == old(Text()) && gapStart == pos
    {
      hide TextOf;
      var n := pos - gapStart;
      CopyDown(gapStart, gapEnd, n);
      MovedRight(old(data[..]), data[..], gapStart, gapEnd, n, MAX_TEXT - 1);
      gapStart := gapStart + n;
      gapEnd := gapEnd + n;
    }

    /** `insert_byte`: refused exactly when the buffer is full. */
    method InsertByte(pos: int, ch: byte) returns (ok: bool)
      requires Valid()
      modifies this, data
      ensures Valid() && ok == (|old(Text())| < MAX_TEXT - 1)
      ensures Text() == if ok then Insert(old(Text()), pos, ch) else old(Text())
    {
      if len >= MAX_TEXT - 1 { return false; }
      if gapEnd <= gapStart { return false; }
      MoveGap(pos);
      PutAtGap(ch);
      return true;
    }

    method PutAtGap(ch: byte)
      requires Valid() && gapStart < gapEnd
      modifies this, data
      ensures Valid() && Text() == old(Text())[..old(gapStart)] + [ch] + old(Text())[old(gapStart)..]
    {
      ghost var before, after := data[..gapStart], data[gapEnd..MAX_TEXT - 1];
      data[gapStart] := ch;
      gapStart := gapStart + 1;
      len := len + 1;
      assert data[gapEnd..MAX_TEXT - 1] == after && data[..gapStart] == before + [ch];
    }

    /** `insert_bytes`: the number of bytes taken. */
    method InsertBytes(pos: int, s: seq<byte>) returns (n: nat)
      requires Valid()
      modifies this, data
      ensures Valid() && n == Min(|s|, MAX_TEXT - 1 - |old(Text())|)
      ensures Text() == InsertRun(old(Text()), pos, s)
    {
      n := 0;
      while n < |s|
        invariant Valid() && n <= |s| && len == old(len) + n
        invariant InsertRun(Text(), pos + n, s[n..]) == InsertRun(old(Text()), pos, s)
      {
        ghost var t := Text();
        assert s[n..][1..] == s[n + 1..];
        var ok := InsertByte(pos + n, s[n]);
        if !ok { break; }
        n := n + 1;
      }
    }

    /** `delete_range`. */
    method DeleteRange(pos: int, n: int)
      requires Valid()
      modifies this, data
      ensures Valid() && Text() == Delete(old(Text()), pos, n)
    {
      if n <= 0 || pos < 0 || pos >= len { return; }
      var count := n;
      if pos + count > len { count := len - pos; }
      MoveGap(pos);
      ghost var t := Text();
      gapEnd := gapEnd + count;
      len := len - count;
      assert Text() == t[..pos] + t[pos + count..];
    }

    /** `flatten`, without the terminating zero. */
    method Flatten(out: array<byte>)
      requires Valid() && out.Length == MAX_TEXT && out != data
      modifies out
      ensures out[..len] == Text()
    {
      for i := 0 to len
        invariant out[..i] == Text()[..i]
      {
        var ch := At(i);
        out[i] := ch;
        assert out[..i + 1] == out[..i] + [ch];
      }
      out[len] := 0;
    }

    /** The text half of `snap_restore`. */
    method Restore(text: seq<byte>)
      requires Valid() && |text| <= MAX_TEXT - 1
      modifies this, data
      ensures Valid() && Text() == text
    {
      len := |text|;
      for i := 0 to |text|
        invariant len == |text| && data[..i] == text[..i]
      {
        data[i] := text[i];
        assert data[..i + 1] == data[..i] + [text[i]];
      }
      gapStart := |text|;
      gapEnd := MAX_TEXT - 1;
      data[gapEnd] := 0;
      assert data[..gapStart] == text[..|text|];
    }

    /** The continuation bytes behind the lead byte at `pos`. */
    method Continuation(pos: nat, need: nat, lead: int) returns (ok: bool, c: int)
      requires Valid() && pos + need < len && lead == Utf8.LeadBits(Text()[pos])
      ensures ok <==> forall k :: 1 <= k <= need ==> Utf8.Continues(Text()[pos..][k])
      ensures ok ==> c == Utf8.Payload(Text()[pos..], need)
    {
      hide TextOf, Utf8.LeadBits;
      ghost var s := Text()[pos..];
      c := lead;
      var i := 1;
      while i <= need
        invariant 1 <= i <= need + 1
        invariant forall k :: 1 <= k < i ==> Utf8.Continues(s[k])
        invariant c == Utf8.Payload(s, i - 1)
      {
        var b := At(pos + i);
        assert b == s[i];
        if !(0x80 <= b < 0xC0) { return false, c; }
        c := c * 64 + b as int % 64;
        i := i + 1;
      }
      ok := true;
    }

    /** `decode_at`: at every position of the text, the decoder run on the rest of it. */
    method DecodeAt(pos: int) returns (cp: int, used: nat)
      requires Valid()
      ensures (cp, used) == if 0 <= pos < |Text()| then Utf8.Decode(Text()[pos..]) else (Utf8.INVALID, 1)
    {
      hide TextOf, Utf8.Payload;
      cp := Utf8.INVALID;
      if pos < 0 || pos >= len { return cp, 1; }
      var b0 := At(pos);
      if b0 < 0x80 { return b0 as int, 1; }
      var c, need: int;
      if 0xC0 <= b0 < 0xE0 {
        c, need := b0 as int % 32, 1;
        if c < 2 { return cp, 1; }
      } else if 0xE0 <= b0 < 0xF0 {
        c, need := b0 as int % 16, 2;
      } else if 0xF0 <= b0 < 0xF8 {
        c, need := b0 as int % 8, 3;
      } else {
        return cp, 1;
      }
      if pos + need >= len { return cp, 1; }
      var ok;
      ok, c := Continuation(pos, need, c);
      if !ok { return cp, 1; }
      if (need == 2 && c < 0x800) || (need == 3 && c < 0x1_0000) || 0xD800 <= c <= 0xDFFF || c > 0x10_FFFF { return cp, 1; }
      return c, need + 1;
    }
  }
}
