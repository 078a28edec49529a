/** UTF-8 in one piece and byte by byte, against the encoding of section 3 of RFC 3629. */
module Utf8 {
  import opened Words

  const INVALID: int := 0xFFFF_FFFF

  // ------------------------------------------------------------ the encoding

  predicate Scalar(c: int) {
    0 <= c < 0x11_0000 && !(0xD800 <= c <= 0xDFFF)
  }

  /** The table of RFC 3629, section 3. */
  function Encode(c: int): (r: seq<byte>)
    requires Scalar(c)
    ensures 1 <= |r| <= 4
  {
    if c < 0x80 then [c as byte]
    else if c < 0x800 then [(0xC0 + c / 64) as byte, (0x80 + c % 64) as byte]
    else if c < 0x1_0000 then
      [(0xE0 + c / 4096) as byte, (0x80 + c / 64 % 64) as byte, (0x80 + c % 64) as byte]
    else
      [(0xF0 + c / 262144) as byte, (0x80 + c / 4096 % 64) as byte, (0x80 + c / 64 % 64) as byte, (0x80 + c % 64) as byte]
  }

  ghost predicate Starts(c: int, s: seq<byte>) {
    Scalar(c) && Encode(c) <= s
  }

  /** The bit tests of the source, as ranges and remainders. */
  lemma BitTests(b: bv8)
    ensures (b & 0xE0) == 0xC0 <==> 0xC0 <= b < 0xE0
    ensures (b & 0xF0) == 0xE0 <==> 0xE0 <= b < 0xF0
    ensures (b & 0xF8) == 0xF0 <==> 0xF0 <= b < 0xF8
    ensures (b & 0xC0) == 0x80 <==> 0x80 <= b < 0xC0
    ensures (b & 0x3F) == b % 64 && (b & 0x1F) == b % 32 && (b & 0x0F) == b % 16 && (b & 0x07) == b % 8
  {
  }

  // ------------------------------------------------------------ one sequence

  predicate Continues(b: byte) {
    0x80 <= b < 0xC0
  }

  /** Continuation bytes a lead byte asks for; -1 for a byte that is no lead. */
  function Need(b: byte): int {
    if b < 0x80 then 0
    else if 0xC0 <= b < 0xE0 then 1
    else if 0xE0 <= b < 0xF0 then 2
    else if 0xF0 <= b < 0xF8 then 3
    else -1
  }

  function LeadBits(b: byte): int {
    if 0xC0 <= b < 0xE0 then b as int % 32 else if 0xE0 <= b < 0xF0 then b as int % 16 else b as int % 8
  }

  /** The payload bits of a lead byte followed by `k` continuation bytes. */
  function Payload(s: seq<byte>, k: nat): int
    requires k < |s|
  {
    if k == 0 then LeadBits(s[0]) else Payload(s, k - 1) * 64 + s[k] as int % 64
  }

  /** `utf8_decode` as a value: code point and bytes consumed. */
  function Decode(s: seq<byte>): (r: (int, nat))
    requires s != []
    ensures 1 <= r.1 <= |s|
  {
    var need := Need(s[0]);
    if need == 0 then (s[0] as int, 1)
    else if need < 0 || (need == 1 && s[0] < 0xC2) || |s| < need + 1 || (exists i :: 1 <= i <= need && !Continues(s[i])) then (INVALID, 1)
    else
      var c := Payload(s, need);
      if (need == 2 && c < 0x800) || (need == 3 && c < 0x1_0000) || 0xD800 <= c <= 0xDFFF || c > 0x10_FFFF then (INVALID, 1)
      else (c, need + 1)
  }

  /** `utf8_decode` on the bytes available at `s`. */
  method DecodeBytes(s: seq<byte>) returns (cp: int, used: nat)
    requires s != []
    ensures (cp, used) == Decode(s)
  {
    var b0 := s[0];
    cp := INVALID;
    if b0 < 0x80 { return b0 as int, 1; }
    var c, need: int;
    if 0xC0 <= b0 < 0xE0 {
      c, need := b0 as int % 32, 1;
      if c < 2 { return cp, 1; }
    } else if 0xE0 <= b0 < 0xF0 {
      c, need := b0 as int % 16, 2;
    } else if 0xF0 <= b0 < 0xF8 {
      c, need := b0 as int % 8, 3;
    } else {
      return cp, 1;
    }
    if |s| < need + 1 { return cp, 1; }
    var i := 1;
    while i <= need
      invariant 1 <= i <= need + 1
      invariant forall k :: 1 <= k < i ==> Continues(s[k])
      invariant c == Payload(s, i - 1)
    {
      if !(0x80 <= s[i] < 0xC0) { return cp, 1; }
      c := c * 64 + s[i] as int % 64;
      i := i + 1;
    }
    if (need == 2 && c < 0x800) || (need == 3 && c < 0x1_0000) || 0xD800 <= c <= 0xDFFF || c > 0x10_FFFF { return cp, 1; }
    return c, need + 1;
  }

  lemma Payloads(s: seq<byte>)
    requires s != []
    ensures |s| > 1 ==> Payload(s, 1) == LeadBits(s[0]) * 64 + s[1] as int % 64
    ensures |s| > 2 ==> Payload(s, 2) == (LeadBits(s[0]) * 64 + s[1] as int % 64) * 64 + s[2] as int % 64
    ensures |s| > 3 ==> Payload(s, 3) == ((LeadBits(s[0]) * 64 + s[1] as int % 64) * 64 + s[2] as int % 64) * 64 + s[3] as int % 64
  {
  }

  lemma Digits(c: int, a: int, x: int, y: int)
    requires 0 <= x < 64 && 0 <= y < 64 && c == (a * 64 + x) * 64 + y
    ensures c / 4096 == a && c / 64 % 64 == x && c % 64 == y
  {
  }

  lemma Digits4(c: int, a: int, x: int, y: int, z: int)
    requires 0 <= x < 64 && 0 <= y < 64 && 0 <= z < 64 && c == ((a * 64 + x) * 64 + y) * 64 + z
    ensures c / 262144 == a && c / 4096 % 64 == x && c / 64 % 64 == y && c % 64 == z
  {
  }

  lemma Joined(c: int)
    requires c >= 0
    ensures c == (c / 4096 * 64 + c / 64 % 64) * 64 + c % 64
    ensures c == ((c / 262144 * 64 + c / 4096 % 64) * 64 + c / 64 % 64) * 64 + c % 64
  {
    var a, b := c / 64, c / 4096;
    assert b == a / 64 && c / 262144 == b / 64;
  }

  lemma TwoBytes(a: byte, b: byte, c: int)
    requires 0xC2 <= a < 0xE0 && Continues(b) && c == LeadBits(a) * 64 + b as int % 64
    ensures 0x80 <= c < 0x800 && Encode(c) == [a, b]
  {
  }

  lemma ThreeBytes(a: byte, b: byte, d: byte, c: int)
    requires Need(a) == 2 && Continues(b) && Continues(d) && c == (LeadBits(a) * 64 + b as int % 64) * 64 + d as int % 64
    requires Scalar(c) && 0x800 <= c
    ensures Encode(c) == [a, b, d]
  {
    Digits(c, LeadBits(a), b as int % 64, d as int % 64);
  }

  lemma FourBytes(a: byte, b: byte, d: byte, e: byte, c: int)
    requires Need(a) == 3 && Continues(b) && Continues(d) && Continues(e)
    requires c == ((LeadBits(a) * 64 + b as int % 64) * 64 + d as int % 64) * 64 + e as int % 64
    requires Scalar(c) && 0x1_0000 <= c
    ensures Encode(c) == [a, b, d, e]
  {
    Digits4(c, LeadBits(a), b as int % 64, d as int % 64, e as int % 64);
  }

  /** An encoding has a lead byte for its length, continuation bytes, and its payload
      is the code point. */
  lemma EncodeParts(c: int)
    requires Scalar(c) && c >= 0x80
    ensures var e := Encode(c);
      && Need(e[0]) == |e| - 1 && (|e| == 2 ==> e[0] >= 0xC2)
      && (forall i :: 1 <= i < |e| ==> Continues(e[i]))
      && Payload(e, |e| - 1) == c
      && (|e| == 3 ==> c >= 0x800) && (|e| == 4 ==> c >= 0x1_0000)
  {
    EncodePayload(c);
    hide Payload;
  }

  lemma EncodePayload(c: int)
    requires Scalar(c) && c >= 0x80
    ensures Payload(Encode(c), |Encode(c)| - 1) == c
  {
    hide Payload;
    Payloads(Encode(c));
    Joined(c);
    if c < 0x800 {
      Low(c / 64 % 64);
      Low(c % 64);
      assert LeadBits(Encode(c)[0]) == c / 64;
    } else if c < 0x1_0000 {
      Low(c / 64 % 64);
      Low(c % 64);
      assert LeadBits(Encode(c)[0]) == c / 4096;
    } else {
      Low(c / 4096 % 64);
      Low(c / 64 % 64);
      Low(c % 64);
      assert LeadBits(Encode(c)[0]) == c / 262144;
    }
  }

  lemma Low(x: int)
    requires 0 <= x < 64
    ensures (0x80 + x) % 64 == x
  {
  }

  lemma {:induction false} PayloadPrefix(e: seq<byte>, s: seq<byte>, k: nat)
    requires k < |e| && e <= s
    ensures Payload(e, k) == Payload(s, k)
  {
    if k == 0 {
    } else {
      PayloadPrefix(e, s, k - 1);
    }
  }

  /** Every encoding is decoded. */
  lemma DecodeEncoded(c: int, s: seq<byte>)
    requires Starts(c, s)
    ensures s != [] && Decode(s) == (c, |Encode(c)|)
  {
    if c >= 0x80 {
      EncodeParts(c);
      var e := Encode(c);
      PayloadPrefix(e, s, |e| - 1);
      hide Payload, Encode;
      assert forall i :: 1 <= i < |e| ==> Continues(e[i]) && s[i] == e[i];
    }
  }

  /** Whatever is accepted is an encoding. */
  lemma DecodeSound(s: seq<byte>)
    requires s != [] && Decode(s).0 != INVALID
    ensures Starts(Decode(s).0, s) && Decode(s).1 == |Encode(Decode(s).0)|
  {
    var need, c := Need(s[0]), Decode(s).0;
    Payloads(s);
    hide Payload, LeadBits;
    if need == 0 {
      assert Encode(c) == s[..1];
    } else {
      hide Encode;
      assert forall i :: 1 <= i <= need ==> Continues(s[i]);
      if need == 1 {
        TwoBytes(s[0], s[1], c);
        assert Encode(c) == s[..2];
      } else if need == 2 {
        ThreeBytes(s[0], s[1], s[2], c);
        assert Encode(c) == s[..3];
      } else {
        FourBytes(s[0], s[1], s[2], s[3], c);
        assert Encode(c) == s[..4];
      }
    }
  }

  /** Decoding accepts exactly the encodings of RFC 3629, and reports one byte otherwise. */
  lemma DecodeExact(s: seq<byte>)
    requires s != []
    ensures Decode(s).0 == INVALID <==> forall c :: !Starts(c, s)
    ensures Decode(s).0 == INVALID ==> Decode(s).1 == 1
    ensures forall c :: Starts(c, s) ==> Decode(s) == (c, |Encode(c)|)
  {
    forall c | Starts(c, s) ensures Decode(s) == (c, |Encode(c)|) {
      DecodeEncoded(c, s);
    }
    if Decode(s).0 != INVALID { DecodeSound(s); }
    hide Encode, Payload, Need;
  }

  // ------------------------------------------------------------- byte by byte

  /** What one byte does to the streaming decoder: state, code, code point. */
  datatype Fed = Fed(buf: seq<byte>, need: nat, code: int, cp: int)

  function Feed(buf: seq<byte>, need: nat, b: byte): Fed {
    if need > 0 && Continues(b) && |buf| < 4 then
      if need == 1 then Fed([], 0, 1, Decode(buf + [b]).0) else Fed(buf + [b], need - 1, 0, INVALID)
    else if b < 0x80 then Fed([], 0, 1, b as int)
    else if Need(b) > 0 then Fed([b], Need(b), 0, INVALID)
    else Fed([], 0, 2, INVALID)
  }

  /** `utf8_feed_t`. */
  class Decoder {
    const buf: array<byte>
    var len: nat
    var need: nat

    ghost predicate Valid()
      reads this
    {
      buf.Length == 4 && len <= 4 && (need == 0 ==> len == 0)
    }

    ghost function Buffered(): seq<byte>
      requires Valid()
      reads this, buf
    {
      buf[..len]
    }

    constructor ()
      ensures Valid() && Buffered() == [] && need == 0 && fresh(buf)
    {
      buf := new byte[4];
      len, need := 0, 0;
    }

    /** `utf8_feed`. */
    method Push(b: byte) returns (code: int, cp: int)
      requires Valid()
      modifies this, buf
      ensures Valid() && Fed(Buffered(), need, code, cp) == Feed(old(Buffered()), old(need), b)
    {
      hide Decode, Payload;
      cp := INVALID;
      if need > 0 {
        if 0x80 <= b < 0xC0 && len < 4 {
          buf[len] := b;
          assert buf[..len + 1] == old(buf[..len]) + [b];
          len := len + 1;
          need := need - 1;
          if need == 0 {
            var used;
            cp, used := DecodeBytes(buf[..len]);
            assert (cp, used).0 == cp;
            len := 0;
            return 1, cp;
          }
          return 0, cp;
        }
        len, need := 0, 0;
      }
      if b < 0x80 { return 1, b as int; }
      if 0xC0 <= b < 0xE0 { buf[0] := b; len, need := 1, 1; return 0, cp; }
      if 0xE0 <= b < 0xF0 { buf[0] := b; len, need := 1, 2; return 0, cp; }
      if 0xF0 <= b < 0xF8 { buf[0] := b; len, need := 1, 3; return 0, cp; }
      return 2, cp;
    }
  }

  /** The code points reported while `s` is fed, and the state left behind. */
  function FeedAll(buf: seq<byte>, need: nat, s: seq<byte>): (seq<int>, seq<byte>, nat)
    decreases s
  {
    if s == [] then ([], buf, need)
    else
      var f := Feed(buf, need, s[0]);
      var r := FeedAll(f.buf, f.need, s[1..]);
      (if f.code == 1 then [f.cp] + r.0 else r.0, r.1, r.2)
  }

  function EncodeAll(cs: seq<int>): seq<byte>
    requires forall i :: 0 <= i < |cs| ==> Scalar(cs[i])
  {
    if cs == [] then [] else Encode(cs[0]) + EncodeAll(cs[1..])
  }

  /** Feeding the rest of an encoding reports its code point and returns to idle. */
  lemma {:induction false} FeedRest(c: int, k: nat, rest: seq<byte>)
    requires Scalar(c) && 1 <= k < |Encode(c)|
    ensures var e := Encode(c); FeedAll(e[..k], |e| - k, e[k..] + rest) == ([c] + FeedAll([], 0, rest).0, FeedAll([], 0, rest).1, FeedAll([], 0, rest).2)
    decreases |Encode(c)| - k
  {
    var e := Encode(c);
    EncodeParts(c);
    DecodeEncoded(c, e);
    hide Encode, Payload, Decode;
    var s := e[k..] + rest;
    assert s[0] == e[k] && s[1..] == e[k + 1..] + rest;
    assert e[..k] + [e[k]] == e[..k + 1];
    if k + 1 < |e| {
      FeedRest(c, k + 1, rest);
    } else {
      assert e[..k + 1] == e && e[k + 1..] + rest == rest;
    }
  }

  lemma FeedOne(c: int, rest: seq<byte>)
    requires Scalar(c)
    ensures FeedAll([], 0, Encode(c) + rest) == ([c] + FeedAll([], 0, rest).0, FeedAll([], 0, rest).1, FeedAll([], 0, rest).2)
  {
    var e := Encode(c);
    var s := e + rest;
    if c < 0x80 {
      assert s[1..] == rest;
    } else {
      EncodeParts(c);
      hide Encode, Payload, Decode;
      assert s[0] == e[0] && s[1..] == e[1..] + rest && e[..1] == [e[0]];
      FeedRest(c, 1, rest);
    }
  }

  /** Streaming the encoding of any string yields exactly its scalars, and ends idle. */
  lemma {:induction false} FeedString(cs: seq<int>)
    requires forall i :: 0 <= i < |cs| ==> Scalar(cs[i])
    ensures FeedAll([], 0, EncodeAll(cs)) == (cs, [], 0)
  {
    hide Encode, Scalar;
    if cs == [] {
    } else {
      FeedOne(cs[0], EncodeAll(cs[1..]));
      FeedString(cs[1..]);
      assert cs == [cs[0]] + cs[1..];
    }
  }

  // ------------------------------------------------------ bytes of any kind

  /** The continuation bytes in front, at most `most` of them. */
  function Tail(s: seq<byte>, most: nat): (n: nat)
    ensures n <= most && n <= |s|
    decreases most
  {
    if most == 0 || s == [] || !(0x80 <= s[0] < 0xC0) then 0 else 1 + Tail(s[1..], most - 1)
  }

  /** What a reader of the whole text expects: ASCII as it is; behind a lead byte, one report
      when all its continuation bytes are there, and otherwise nothing for the broken-off
      part, after which reading goes on with the byte that broke it; nothing for a byte that
      can start no sequence. */
  function Reports(s: seq<byte>): seq<int>
    decreases |s|
  {
    if s == [] then []
    else if s[0] < 0x80 then [s[0] as int] + Reports(s[1..])
    else if 0xC0 <= s[0] < 0xF8 then
      var need := if s[0] < 0xE0 then 1 else if s[0] < 0xF0 then 2 else 3;
      var n := Tail(s[1..], need);
      (if n == need then [Decode(s[..need + 1]).0] else []) + Reports(s[n + 1..])
    else Reports(s[1..])
  }

  /** In the middle of a sequence any byte but a continuation is taken as from idle; from
      idle, a continuation byte or one above the lead bytes is handed back as it is. */
  lemma FeedResync(buf: seq<byte>, need: nat, b: byte)
    ensures !(0x80 <= b < 0xC0) ==> Feed(buf, need, b) == Feed([], 0, b)
    ensures Feed([], 0, b).code == 2 <==> 0x80 <= b < 0xC0 || b >= 0xF8
    ensures Feed([], 0, b).code == 1 <==> b < 0x80
    ensures Feed([], 0, b).code == 2 ==> Feed([], 0, b) == Fed([], 0, 2, INVALID)
  {
  }

  lemma FeedStep(buf: seq<byte>, need: nat, b: byte, s: seq<byte>)
    ensures var f, r := Feed(buf, need, b), FeedAll(buf, need, [b] + s).0;
      r == (if f.code == 1 then [f.cp] else []) + FeedAll(f.buf, f.need, s).0
  {
    assert ([b] + s)[1..] == s;
  }

  /** Feeding the rest of a sequence that has `n` of its `need` continuation bytes. */
  lemma {:induction false} FeedTail(s: seq<byte>, i: nat, n: nat, need: nat)
    requires 1 <= i <= n + 1 && i <= need <= 3 && n <= need && n + 1 <= |s|
    requires forall k :: 1 <= k <= n ==> Continues(s[k])
    requires n < need && n + 1 < |s| ==> !Continues(s[n + 1])
    ensures FeedAll(s[..i], need - (i - 1), s[i..]).0 ==
      (if n == need then [Decode(s[..need + 1]).0] else []) + FeedAll([], 0, s[n + 1..]).0
    decreases n + 1 - i
  {
    hide Decode, Need, FeedAll;
    if i < |s| {
      assert s[i..] == [s[i]] + s[i + 1..];
      FeedStep(s[..i], need - (i - 1), s[i], s[i + 1..]);
      if i <= n {
        assert s[..i] + [s[i]] == s[..i + 1];
        if i < need { FeedTail(s, i + 1, n, need); }
      } else {
        FeedResync(s[..i], need - (i - 1), s[i]);
        FeedStep([], 0, s[i], s[i + 1..]);
      }
    } else {
      FeedNone(s[..i], need - (i - 1), s[i..]);
      FeedNone([], 0, s[n + 1..]);
    }
  }

  lemma FeedNone(buf: seq<byte>, need: nat, s: seq<byte>)
    requires s == []
    ensures FeedAll(buf, need, s).0 == []
  {
  }

  lemma {:induction false} TailIs(s: seq<byte>, most: nat)
    ensures var n := Tail(s, most);
      && (forall k :: 0 <= k < n ==> Continues(s[k])) && (n < most && n < |s| ==> !Continues(s[n]))
    decreases most
  {
    if most == 0 || s == [] || !Continues(s[0]) {
    } else {
      TailIs(s[1..], most - 1);
      assert forall k :: 1 <= k < Tail(s, most) ==> s[k] == s[1..][k - 1];
    }
  }

  /** Fed byte by byte, any text at all is reported as expected. */
  lemma {:induction false} FeedAny(s: seq<byte>)
    ensures FeedAll([], 0, s).0 == Reports(s)
    decreases |s|
  {
    hide Decode, FeedAll, Tail;
    if s == [] {
      FeedNone([], 0, s);
    } else {
      assert s == [s[0]] + s[1..];
      FeedStep([], 0, s[0], s[1..]);
      if 0xC0 <= s[0] < 0xF8 {
        LeadAny(s, Need(s[0]));
        FeedAny(s[Tail(s[1..], Need(s[0])) + 1..]);
      } else {
        FeedAny(s[1..]);
      }
    }
  }

  lemma LeadAny(s: seq<byte>, need: nat)
    requires s != [] && 1 <= need <= 3
    ensures var n := Tail(s[1..], need);
      FeedAll([s[0]], need, s[1..]).0 == (if n == need then [Decode(s[..need + 1]).0] else []) + FeedAll([], 0, s[n + 1..]).0
  {
    hide Decode, FeedAll, Tail;
    var n := Tail(s[1..], need);
    TailIs(s[1..], need);
    assert forall k :: 1 <= k <= n ==> s[k] == s[1..][k - 1];
    assert s[..1] == [s[0]];
    FeedTail(s, 1, n, need);
  }

  /** A whole text, sequence by sequence. */
  function DecodeAll(s: seq<byte>): seq<int> {
    if s == [] then [] else [Decode(s).0] + DecodeAll(s[Decode(s).1..])
  }

  /** In one piece or byte by byte, the same scalars. */
  lemma {:induction false} BatchIsStream(cs: seq<int>)
    requires forall i :: 0 <= i < |cs| ==> Scalar(cs[i])
    ensures DecodeAll(EncodeAll(cs)) == FeedAll([], 0, EncodeAll(cs)).0
  {
    FeedString(cs);
    DecodeString(cs);
  }

  lemma {:induction false} DecodeString(cs: seq<int>)
    requires forall i :: 0 <= i < |cs| ==> Scalar(cs[i])
    ensures DecodeAll(EncodeAll(cs)) == cs
  {
    hide Encode, Decode;
    if cs == [] {
    } else {
      var e, s := Encode(cs[0]), EncodeAll(cs);
      assert s[..|e|] == e && s[|e|..] == EncodeAll(cs[1..]);
      DecodeEncoded(cs[0], s);
      DecodeString(cs[1..]);
      assert cs == [cs[0]] + cs[1..];
    }
  }
}
