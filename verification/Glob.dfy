/** The shell's file name patterns, matched by one loop that remembers only the latest
    star. Strings are bytes without the terminating zero. */
module Glob {
  import opened Words

  const STAR: byte := 42

  /** The language: a star stands for any run of characters. */
  ghost predicate Matches(p: seq<byte>, n: seq<byte>)
    decreases p
  {
    if p == [] then n == []
    else if p[0] == STAR then exists k :: 0 <= k <= |n| && Matches(p[1..], n[k..])
    else n != [] && p[0] == n[0] && Matches(p[1..], n[1..])
  }

  /** Does `p` match the suffix of `n` that starts at `m`? */
  ghost predicate MatchesAt(p: seq<byte>, n: seq<byte>, m: nat)
    requires m <= |n|
  {
    Matches(p, n[m..])
  }

  /** Does `p` match some suffix of `n` that starts at `k` or later? */
  ghost predicate Later(p: seq<byte>, n: seq<byte>, k: nat) {
    exists m :: k <= m <= |n| && MatchesAt(p, n, m)
  }

  ghost predicate Meets(lit: seq<byte>, n: seq<byte>, m: nat) {
    m + |lit| <= |n| && n[m..m + |lit|] == lit
  }

  /** A literal run must be met head on. */
  lemma {:induction false} LiteralRun(lit: seq<byte>, p: seq<byte>, n: seq<byte>, m: nat)
    requires STAR !in lit && m <= |n|
    ensures MatchesAt(lit + p, n, m) <==> Meets(lit, n, m) && MatchesAt(p, n, m + |lit|)
    decreases lit
  {
    if lit == [] {
      assert lit + p == p;
    } else {
      assert (lit + p)[0] == lit[0] && (lit + p)[1..] == lit[1..] + p;
      if m < |n| && lit[0] == n[m] {
        LiteralRun(lit[1..], p, n, m + 1);
        assert n[m..][1..] == n[m + 1..];
        MeetsMore(lit, n, m);
      }
    }
  }

  lemma MeetsMore(lit: seq<byte>, n: seq<byte>, m: nat)
    requires lit != [] && m < |n| && lit[0] == n[m]
    ensures Meets(lit, n, m) <==> Meets(lit[1..], n, m + 1)
  {
    if m + |lit| <= |n| {
      assert n[m..m + |lit|] == [n[m]] + n[m + 1..m + |lit|] && lit == [lit[0]] + lit[1..];
      assert n[m..m + |lit|][1..] == n[m + 1..m + |lit|];
    }
  }

  /** A star is met when the rest of the pattern is met later on. */
  lemma StarLater(p: seq<byte>, n: seq<byte>, j: nat)
    requires p != [] && p[0] == STAR && j <= |n|
    ensures MatchesAt(p, n, j) <==> Later(p[1..], n, j)
  {
    if MatchesAt(p, n, j) {
      var k :| 0 <= k <= |n[j..]| && Matches(p[1..], n[j..][k..]);
      assert n[j..][k..] == n[j + k..];
      assert MatchesAt(p[1..], n, j + k);
    }
    if Later(p[1..], n, j) {
      var m :| j <= m <= |n| && MatchesAt(p[1..], n, m);
      assert n[m..] == n[j..][m - j..];
    }
  }

  /** Looking no further back than the latest star loses nothing: once the literals
      between two stars were met as early as possible, any match of the first star can
      be turned into one of the second. */
  lemma LatestStarSuffices(lit: seq<byte>, p: seq<byte>, n: seq<byte>, r: nat)
    requires STAR !in lit && p != [] && p[0] == STAR && Meets(lit, n, r)
    ensures Later(lit + p, n, r) <==> Later(p[1..], n, r + |lit|)
  {
    hide MatchesAt;
    if Later(lit + p, n, r) {
      var m :| r <= m <= |n| && MatchesAt(lit + p, n, m);
      LiteralRun(lit, p, n, m);
      StarLater(p, n, m + |lit|);
      LaterSooner(p[1..], n, r + |lit|, m + |lit|);
    }
    if Later(p[1..], n, r + |lit|) {
      StarLater(p, n, r + |lit|);
      LiteralRun(lit, p, n, r);
    }
  }

  lemma LaterSooner(p: seq<byte>, n: seq<byte>, k: nat, m: nat)
    requires k <= m && Later(p, n, m)
    ensures Later(p, n, k)
  {
    hide MatchesAt;
  }

  /** When the attempt at `r` fails behind its literals, the next one starts at `r + 1`. */
  lemma AttemptFails(lit: seq<byte>, p: seq<byte>, n: seq<byte>, r: nat)
    requires STAR !in lit && r + |lit| < |n| && (p == [] || (p[0] != STAR && p[0] != n[r + |lit|]))
    ensures Later(lit + p, n, r) <==> Later(lit + p, n, r + 1)
  {
    assert !MatchesAt(p, n, r + |lit|);
    hide MatchesAt;
    LiteralRun(lit, p, n, r);
    if Later(lit + p, n, r) {
      var m :| r <= m <= |n| && MatchesAt(lit + p, n, m);
      assert m != r;
    }
    if Later(lit + p, n, r + 1) { LaterSooner(lit + p, n, r, r + 1); }
  }

  /** With the name used up, only the attempt in progress can still succeed. */
  lemma NameUsedUp(lit: seq<byte>, p: seq<byte>, n: seq<byte>, r: nat)
    requires STAR !in lit && r + |lit| == |n| && Meets(lit, n, r)
    ensures Later(lit + p, n, r) <==> Matches(p, [])
  {
    assert n[|n|..] == [];
    assert MatchesAt(p, n, |n|) <==> Matches(p, []);
    hide MatchesAt, Matches;
    LiteralRun(lit, p, n, r);
    if Later(lit + p, n, r) {
      var m :| r <= m <= |n| && MatchesAt(lit + p, n, m);
      LiteralRun(lit, p, n, m);
    }
  }

  lemma {:induction false} OnlyStars(p: seq<byte>, q: nat)
    requires q <= |p| && (forall i :: 0 <= i < q ==> p[i] == STAR) && (q < |p| ==> p[q] != STAR)
    ensures Matches(p, []) <==> q == |p|
    decreases q
  {
    if q == 0 {
    } else {
      OnlyStars(p[1..], q - 1);
      var nothing: seq<byte> := [];
      assert nothing[0..] == nothing;
      assert Matches(p, []) <==> Matches(p[1..], nothing[0..]);
    }
  }

  // ------------------------------------------------------ the language in words

  /** A name that falls into two pieces, one for each pattern. */
  ghost predicate InTurn(p: seq<byte>, q: seq<byte>, n: seq<byte>) {
    exists k :: 0 <= k <= |n| && Matches(p, n[..k]) && Matches(q, n[k..])
  }

  /** Patterns one after the other match pieces one after the other. */
  lemma {:induction false} GlobConcat(p: seq<byte>, q: seq<byte>, n: seq<byte>)
    ensures Matches(p + q, n) <==> InTurn(p, q, n)
    decreases p
  {
    if p == [] {
      assert p + q == q && n[..0] == [] && n[0..] == n;
    } else {
      assert (p + q)[1..] == p[1..] + q;
      forall m: seq<byte> ensures Matches(p[1..] + q, m) <==> InTurn(p[1..], q, m) {
        GlobConcat(p[1..], q, m);
      }
      hide Matches, InTurn;
      if Matches(p + q, n) { ConcatSplits(p, q, n); }
      if InTurn(p, q, n) { ConcatJoins(p, q, n); }
    }
  }

  ghost predicate TailConcats(p: seq<byte>, q: seq<byte>)
    requires p != []
  {
    (p + q)[1..] == p[1..] + q && forall m :: Matches(p[1..] + q, m) <==> InTurn(p[1..], q, m)
  }

  lemma ConcatSplits(p: seq<byte>, q: seq<byte>, n: seq<byte>)
    requires p != [] && TailConcats(p, q) && Matches(p + q, n)
    ensures InTurn(p, q, n)
  {
    var j := 1;
    if p[0] == STAR { j :| 0 <= j <= |n| && Matches((p + q)[1..], n[j..]); }
    var m := n[j..];
    assert Matches(p[1..] + q, m);
    var k :| 0 <= k <= |m| && Matches(p[1..], m[..k]) && Matches(q, m[k..]);
    var front := n[..j + k];
    assert front[j..] == m[..k] && n[j + k..] == m[k..];
    assert Matches(p, front) && Matches(q, n[j + k..]);
  }

  lemma ConcatJoins(p: seq<byte>, q: seq<byte>, n: seq<byte>)
    requires p != [] && TailConcats(p, q) && InTurn(p, q, n)
    ensures Matches(p + q, n)
  {
    var k :| 0 <= k <= |n| && Matches(p, n[..k]) && Matches(q, n[k..]);
    var front, j := n[..k], 1;
    if p[0] == STAR { j :| 0 <= j <= |front| && Matches(p[1..], front[j..]); }
    var m := n[j..];
    assert m[..k - j] == front[j..] && m[k - j..] == n[k..];
    assert InTurn(p[1..], q, m);
    assert Matches((p + q)[1..], n[j..]);
  }

  /** `*` alone matches every name, and a pattern without it only itself. */
  lemma {:induction false} GlobUnits(p: seq<byte>, n: seq<byte>)
    ensures Matches([42], n)
    ensures 42 !in p ==> (Matches(p, n) <==> n == p)
    decreases p
  {
    var nothing: seq<byte> := [];
    assert [STAR][1..] == nothing && n[|n|..] == nothing && Matches(nothing, n[|n|..]);
    if p != [] {
      assert p == [p[0]] + p[1..];
      if n != [] {
        assert n == [n[0]] + n[1..];
        GlobUnits(p[1..], n[1..]);
      }
    }
  }

  /** What is known while the loop runs: with no star seen the rest decides; after a star
      the question is whether the pattern behind it matches at `resume` or later, and the
      literals `lit` behind it have been met so far. */
  ghost predicate Pending(pat: seq<byte>, name: seq<byte>, i: nat, j: nat, star: int, resume: nat, lit: seq<byte>)
    requires i <= |pat| && j <= |name|
  {
    if star == -1 then Matches(pat, name) <==> MatchesAt(pat[i..], name, j)
    else
      && 0 <= star && i == star + 1 + |lit| && j == resume + |lit|
      && Meets(lit, pat, star + 1) && Meets(lit, name, resume) && STAR !in lit
      && (Matches(pat, name) <==> Later(pat[star + 1..], name, resume))
  }

  lemma Behind(pat: seq<byte>, star: nat, lit: seq<byte>)
    requires Meets(lit, pat, star + 1)
    ensures pat[star + 1..] == lit + pat[star + 1 + |lit|..]
  {
  }

  lemma SeeStar(pat: seq<byte>, name: seq<byte>, i: nat, j: nat, star: int, resume: nat, lit: seq<byte>)
    requires i < |pat| && j <= |name| && pat[i] == STAR && Pending(pat, name, i, j, star, resume, lit)
    ensures Pending(pat, name, i + 1, j, i, j, [])
  {
    assert Meets([], pat, i + 1) && Meets([], name, j);
    assert pat[i..][1..] == pat[i + 1..];
    hide Matches, MatchesAt, Later, Meets;
    if star == -1 {
      StarLater(pat[i..], name, j);
    } else {
      Behind(pat, star, lit);
      LatestStarSuffices(lit, pat[i..], name, resume);
    }
  }

  lemma SeeSame(pat: seq<byte>, name: seq<byte>, i: nat, j: nat, star: int, resume: nat, lit: seq<byte>)
    requires i < |pat| && j < |name| && pat[i] == name[j] && pat[i] != STAR && Pending(pat, name, i, j, star, resume, lit)
    ensures Pending(pat, name, i + 1, j + 1, star, resume, lit + [pat[i]])
  {
    hide Matches, MatchesAt, Later, Meets;
    if star == -1 {
      SameHead(pat, name, i, j);
    } else {
      MeetsOneMore(lit, pat, star + 1);
      MeetsOneMore(lit, name, resume);
    }
  }

  lemma SameHead(pat: seq<byte>, name: seq<byte>, i: nat, j: nat)
    requires i < |pat| && j < |name| && pat[i] == name[j] && pat[i] != STAR
    ensures MatchesAt(pat[i..], name, j) <==> MatchesAt(pat[i + 1..], name, j + 1)
  {
    assert pat[i..][1..] == pat[i + 1..] && name[j..][1..] == name[j + 1..];
  }

  lemma MeetsOneMore(lit: seq<byte>, n: seq<byte>, m: nat)
    requires Meets(lit, n, m) && m + |lit| < |n|
    ensures Meets(lit + [n[m + |lit|]], n, m)
  {
    assert n[m..m + |lit| + 1] == n[m..m + |lit|] + [n[m + |lit|]];
  }

  lemma SeeOther(pat: seq<byte>, name: seq<byte>, i: nat, j: nat, star: int, resume: nat, lit: seq<byte>)
    requires i <= |pat| && j < |name| && (i == |pat| || (pat[i] != STAR && pat[i] != name[j]))
    requires Pending(pat, name, i, j, star, resume, lit)
    ensures star == -1 ==> !Matches(pat, name)
    ensures star != -1 ==> Pending(pat, name, star + 1, resume + 1, star, resume + 1, [])
  {
    if star != -1 {
      assert Meets([], pat, star + 1) && Meets([], name, resume + 1);
      hide Matches, MatchesAt, Later, Meets;
      Behind(pat, star, lit);
      AttemptFails(lit, pat[i..], name, resume);
    }
  }

  /** `glob_match`: true exactly on the names of the pattern's language. */
  method GlobMatch(pat: seq<byte>, name: seq<byte>) returns (ok: bool)
    ensures ok <==> Matches(pat, name)
  {
    hide Pending, Matches;
    var i, j, star, resume := 0, 0, -1, 0;
    ghost var lit: seq<byte> := [];
    Start(pat, name);
    while j < |name|
      invariant 0 <= i <= |pat| && 0 <= j <= |name| && 0 <= resume <= j && -1 <= star < i
      invariant star == -1 ==> resume == 0
      invariant Pending(pat, name, i, j, star, resume, lit)
      decreases |pat| - star, |name| - resume, |name| - j
    {
      if i < |pat| && pat[i] == STAR {
        SeeStar(pat, name, i, j, star, resume, lit);
        star, i, resume, lit := i, i + 1, j, [];
      } else if i < |pat| && pat[i] == name[j] {
        SeeSame(pat, name, i, j, star, resume, lit);
        i, j, lit := i + 1, j + 1, lit + [pat[i]];
      } else {
        SeeOther(pat, name, i, j, star, resume, lit);
        if star == -1 { return false; }
        i, resume, lit := star + 1, resume + 1, [];
        j := resume;
      }
    }
    AtEnd(pat, name, i, star, resume, lit);
    ghost var rest := pat[i..];
    ghost var q := 0;
    while i < |pat| && pat[i] == STAR
      invariant 0 <= i <= |pat| && q <= |rest| && rest[q..] == pat[i..] && forall x :: 0 <= x < q ==> rest[x] == STAR
    {
      assert rest[q..][0] == STAR;
      i, q := i + 1, q + 1;
    }
    if i < |pat| { assert rest[q..][0] != STAR; }
    OnlyStars(rest, q);
    ok := i == |pat|;
  }

  lemma Start(pat: seq<byte>, name: seq<byte>)
    ensures Pending(pat, name, 0, 0, -1, 0, [])
  {
    assert pat[0..] == pat && name[0..] == name;
  }

  lemma AtEnd(pat: seq<byte>, name: seq<byte>, i: nat, star: int, resume: nat, lit: seq<byte>)
    requires i <= |pat| && Pending(pat, name, i, |name|, star, resume, lit)
    ensures Matches(pat, name) <==> Matches(pat[i..], [])
  {
    if star == -1 {
      assert name[|name|..] == [];
    } else {
      hide Matches, MatchesAt, Later, Meets;
      Behind(pat, star, lit);
      NameUsedUp(lit, pat[i..], name, resume);
    }
  }
}
