/** The editor's backtracking matcher, for patterns without groups. Pattern and line
    are C strings of signed characters without zeros. */
module Regex {
  type Chr = x: int | -128 <= x < 128

  const CARET: Chr := 94
  const DOLLAR: Chr := 36
  const DOT: Chr := 46
  const STAR: Chr := 42
  const DASH: Chr := 45
  const OPEN: Chr := 91
  const CLOSE: Chr := 93
  const ESC: Chr := 92
  const PAREN: Chr := 40

  /** Reading a C string: zero behind the last character. */
  function Ch(p: seq<Chr>, i: nat): Chr {
    if i < |p| then p[i] else 0
  }

  function Fold(ic: bool, c: Chr): Chr {
    if ic && 65 <= c <= 90 then c + 32 else c
  }

  // ------------------------------------------------------------- the language

  datatype Atom = Any | Lit(c: Chr) | Class(neg: bool, ranges: seq<(Chr, Chr)>)

  datatype Item = Bol | Eol | One(a: Atom) | Many(a: Atom)

  predicate InRange(ic: bool, r: (Chr, Chr), b: Chr) {
    Fold(ic, r.0) <= Fold(ic, b) <= Fold(ic, r.1)
  }

  predicate InRanges(ic: bool, rs: seq<(Chr, Chr)>, b: Chr) {
    exists i :: 0 <= i < |rs| && InRange(ic, rs[i], b)
  }

  predicate Accepts(ic: bool, a: Atom, b: Chr) {
    match a
    case Any => true
    case Lit(c) => Fold(ic, b) == Fold(ic, c)
    case Class(neg, rs) => InRanges(ic, rs, b) != neg
  }

  /** The next `k` characters are all accepted. */
  ghost predicate Run(ic: bool, a: Atom, line: seq<Chr>, at: nat, k: nat) {
    at + k <= |line| && forall i :: at <= i < at + k ==> Accepts(ic, a, line[i])
  }

  /** The `n` characters of the line from `at` on are in the language of the items. */
  ghost predicate Lang(ic: bool, items: seq<Item>, line: seq<Chr>, at: nat, n: nat)
    decreases items
  {
    at + n <= |line| &&
    if items == [] then n == 0
    else
      match items[0]
      case Bol => at == 0 && Lang(ic, items[1..], line, at, n)
      case Eol => at == |line| && Lang(ic, items[1..], line, at, n)
      case One(a) => n > 0 && Accepts(ic, a, line[at]) && Lang(ic, items[1..], line, at + 1, n - 1)
      case Many(a) => exists k :: 0 <= k <= n && Run(ic, a, line, at, k) && Lang(ic, items[1..], line, at + k, n - k)
  }

  ghost predicate NoMatch(ic: bool, items: seq<Item>, line: seq<Chr>, at: nat) {
    forall n :: !Lang(ic, items, line, at, n)
  }

  // ----------------------------------------------------- what the items mean

  /** The other case of an ASCII letter. */
  function Swapped(c: Chr): Chr {
    if 65 <= c <= 90 then c + 32 else if 97 <= c <= 122 then c - 32 else c
  }

  /** Both ends lie below the capitals, among them, or above them. */
  ghost predicate OneSided(r: (Chr, Chr)) {
    (r.0 < 65 && r.1 < 65) || (65 <= r.0 <= 90 && 65 <= r.1 <= 90) || (90 < r.0 && 90 < r.1)
  }

  ghost predicate Inside(r: (Chr, Chr), b: Chr) {
    r.0 <= b <= r.1
  }

  /** Which single characters an atom takes. Without `ic` cases differ; with it a character
      counts in either case, for all ranges whose ends lie on the same side of the capitals. */
  lemma AtomTakes(ic: bool, a: Atom, b: Chr)
    requires a.Class? && ic ==> forall i :: 0 <= i < |a.ranges| ==> OneSided(a.ranges[i])
    ensures a.Any? ==> Accepts(ic, a, b)
    ensures a.Lit? ==> (Accepts(ic, a, b) <==> b == a.c || (ic && Swapped(b) == a.c))
    ensures a.Class? ==> (Accepts(ic, a, b) <==>
      a.neg != exists i :: 0 <= i < |a.ranges| && (Inside(a.ranges[i], b) || (ic && Inside(a.ranges[i], Swapped(b)))))
  {
    if a.Class? {
      forall i | 0 <= i < |a.ranges|
        ensures InRange(ic, a.ranges[i], b) <==> Inside(a.ranges[i], b) || (ic && Inside(a.ranges[i], Swapped(b)))
      {
        RangeTakes(ic, a.ranges[i], b);
      }
      hide InRange, Inside;
    }
  }

  lemma RangeTakes(ic: bool, r: (Chr, Chr), b: Chr)
    requires ic ==> OneSided(r)
    ensures InRange(ic, r, b) <==> Inside(r, b) || (ic && Inside(r, Swapped(b)))
  {
  }

  /** One item alone: an anchor takes no character and sits at its end of the line, an atom
      takes one, a starred atom any number. */
  lemma ItemTakes(ic: bool, item: Item, line: seq<Chr>, at: nat, n: nat)
    ensures Lang(ic, [item], line, at, n) <==>
      at + n <= |line| &&
      match item
      case Bol => n == 0 && at == 0
      case Eol => n == 0 && at == |line|
      case One(a) => n == 1 && Accepts(ic, a, line[at])
      case Many(a) => forall i :: at <= i < at + n ==> Accepts(ic, a, line[i])
  {
    hide Accepts;
    assert [item][1..] == [];
    if item.Many? && at + n <= |line| && (forall i :: at <= i < at + n ==> Accepts(ic, item.a, line[i])) {
      assert Run(ic, item.a, line, at, n);
      assert Lang(ic, [item][1..], line, at + n, n - n);
    }
  }

  /** Two pieces, one in each language. */
  ghost predicate InTurn(ic: bool, xs: seq<Item>, ys: seq<Item>, line: seq<Chr>, at: nat, n: nat) {
    exists k :: 0 <= k <= n && Lang(ic, xs, line, at, k) && Lang(ic, ys, line, at + k, n - k)
  }

  /** Items one after the other take pieces one after the other. */
  lemma {:induction false} LangConcat(ic: bool, xs: seq<Item>, ys: seq<Item>, line: seq<Chr>, at: nat, n: nat)
    ensures Lang(ic, xs + ys, line, at, n) <==> InTurn(ic, xs, ys, line, at, n)
    decreases xs
  {
    if xs == [] {
      assert xs + ys == ys;
      assert at <= |line| ==> Lang(ic, xs, line, at, 0);
    } else {
      assert (xs + ys)[1..] == xs[1..] + ys;
      forall s: nat, m: nat ensures Lang(ic, xs[1..] + ys, line, s, m) <==> InTurn(ic, xs[1..], ys, line, s, m) {
        LangConcat(ic, xs[1..], ys, line, s, m);
      }
      hide Lang, InTurn;
      if Lang(ic, xs + ys, line, at, n) { ConcatSplits(ic, xs, ys, line, at, n); }
      if InTurn(ic, xs, ys, line, at, n) { ConcatJoins(ic, xs, ys, line, at, n); }
    }
  }

  ghost predicate TailConcats(ic: bool, xs: seq<Item>, ys: seq<Item>, line: seq<Chr>)
    requires xs != []
  {
    && (xs + ys)[1..] == xs[1..] + ys
    && forall s: nat, m: nat :: Lang(ic, xs[1..] + ys, line, s, m) <==> InTurn(ic, xs[1..], ys, line, s, m)
  }

  lemma ConcatSplits(ic: bool, xs: seq<Item>, ys: seq<Item>, line: seq<Chr>, at: nat, n: nat)
    requires xs != [] && TailConcats(ic, xs, ys, line) && Lang(ic, xs + ys, line, at, n)
    ensures InTurn(ic, xs, ys, line, at, n)
  {
    hide Accepts, Run;
    var m := if xs[0].One? then 1 else 0;
    if xs[0].Many? { m :| 0 <= m <= n && Run(ic, xs[0].a, line, at, m) && Lang(ic, (xs + ys)[1..], line, at + m, n - m); }
    var s, rest := at + m, n - m;
    assert Lang(ic, xs[1..] + ys, line, s, rest);
    var j :| 0 <= j <= rest && Lang(ic, xs[1..], line, s, j) && Lang(ic, ys, line, s + j, rest - j);
    var k := m + j;
    assert xs[0].Many? ==> Run(ic, xs[0].a, line, at, m) && Lang(ic, xs[1..], line, at + m, k - m);
    assert Lang(ic, xs, line, at, k) && Lang(ic, ys, line, at + k, n - k);
  }

  lemma ConcatJoins(ic: bool, xs: seq<Item>, ys: seq<Item>, line: seq<Chr>, at: nat, n: nat)
    requires xs != [] && TailConcats(ic, xs, ys, line) && InTurn(ic, xs, ys, line, at, n)
    ensures Lang(ic, xs + ys, line, at, n)
  {
    hide Accepts, Run;
    var k :| 0 <= k <= n && Lang(ic, xs, line, at, k) && Lang(ic, ys, line, at + k, n - k);
    var m := if xs[0].One? then 1 else 0;
    if xs[0].Many? { m :| 0 <= m <= k && Run(ic, xs[0].a, line, at, m) && Lang(ic, xs[1..], line, at + m, k - m); }
    var s, rest, j := at + m, n - m, k - m;
    assert Lang(ic, xs[1..], line, s, j) && Lang(ic, ys, line, s + j, rest - j);
    assert Lang(ic, xs[1..] + ys, line, s, rest);
    assert xs[0].Many? ==> Run(ic, xs[0].a, line, at, m) && Lang(ic, (xs + ys)[1..], line, at + m, n - m);
  }

  // --------------------------------------------------------------- the syntax

  predicate RangeAt(p: seq<Chr>, i: nat) {
    Ch(p, i + 1) == DASH && Ch(p, i + 2) != 0 && Ch(p, i + 2) != CLOSE
  }

  /** The ranges of a class body; a single character is a range of its own. */
  function Ranges(p: seq<Chr>, i: nat): seq<(Chr, Chr)>
    decreases |p| - i
  {
    if i >= |p| || p[i] == CLOSE then []
    else if RangeAt(p, i) then [(p[i], Ch(p, i + 2))] + Ranges(p, i + 3)
    else [(p[i], p[i])] + Ranges(p, i + 1)
  }

  /** The closing bracket of a class body, or the end of the pattern. */
  function BodyEnd(p: seq<Chr>, i: nat): (r: nat)
    requires i <= |p|
    ensures i <= r <= |p| && (r < |p| ==> p[r] == CLOSE) && forall k :: i <= k < r ==> p[k] != CLOSE
    decreases |p| - i
  {
    if i == |p| || p[i] == CLOSE then i else BodyEnd(p, i + 1)
  }

  lemma BodyEndStep(p: seq<Chr>, i: nat)
    requires i < |p| && p[i] != CLOSE
    ensures BodyEnd(p, i) == BodyEnd(p, i + 1)
    ensures RangeAt(p, i) ==> i + 3 <= |p| && BodyEnd(p, i) == BodyEnd(p, i + 3)
  {
  }

  /** Where the body starts, behind `[`, `^` and a leading `]`. */
  function BodyStart(p: seq<Chr>, i: nat): (r: nat)
    requires i <= |p|
    ensures i <= r <= |p|
  {
    var j := if Ch(p, i) == CARET then i + 1 else i;
    if Ch(p, j) == CLOSE then j + 1 else j
  }

  function ClassAt(p: seq<Chr>, i: nat): Atom
    requires i <= |p|
  {
    var j := if Ch(p, i) == CARET then i + 1 else i;
    var first := if Ch(p, j) == CLOSE then [(CLOSE, CLOSE)] else [];
    Class(Ch(p, i) == CARET, first + Ranges(p, BodyStart(p, i)))
  }

  function ClassEnd(p: seq<Chr>, i: nat): (r: nat)
    requires i <= |p|
    ensures i <= r <= |p|
  {
    var q := BodyEnd(p, BodyStart(p, i));
    if q < |p| then q + 1 else q
  }

  function AtomAt(p: seq<Chr>, pi: nat): Atom
    requires pi < |p|
  {
    if p[pi] == DOT then Any
    else if p[pi] == OPEN then ClassAt(p, pi + 1)
    else if p[pi] == ESC && pi + 1 < |p| then Lit(p[pi + 1])
    else Lit(p[pi])
  }

  function AtomLen(p: seq<Chr>, pi: nat): (r: nat)
    requires pi < |p|
    ensures 1 <= r && pi + r <= |p|
  {
    if p[pi] == OPEN then ClassEnd(p, pi + 1) - pi
    else if p[pi] == ESC && pi + 1 < |p| then 2
    else 1
  }

  predicate Starred(p: seq<Chr>, pi: nat)
    requires pi < |p|
  {
    Ch(p, pi + AtomLen(p, pi)) == STAR
  }

  function ItemAt(p: seq<Chr>, pi: nat): Item
    requires pi < |p|
  {
    if p[pi] == CARET && pi == 0 then Bol
    else if p[pi] == DOLLAR && pi + 1 == |p| then Eol
    else if Starred(p, pi) then Many(AtomAt(p, pi))
    else One(AtomAt(p, pi))
  }

  function ItemLen(p: seq<Chr>, pi: nat): (r: nat)
    requires pi < |p|
    ensures 1 <= r && pi + r <= |p|
  {
    match ItemAt(p, pi)
    case Bol => 1
    case Eol => 1
    case One(_) => AtomLen(p, pi)
    case Many(_) => AtomLen(p, pi) + 1
  }

  function Items(p: seq<Chr>, pi: nat): seq<Item>
    requires pi <= |p|
    decreases |p| - pi
  {
    if pi == |p| then [] else [ItemAt(p, pi)] + Items(p, pi + ItemLen(p, pi))
  }

  /** No item of the pattern opens a group. */
  ghost predicate GroupFree(p: seq<Chr>, pi: nat)
    requires pi <= |p|
    decreases |p| - pi
  {
    pi < |p| ==> !(p[pi] == ESC && Ch(p, pi + 1) == PAREN) && GroupFree(p, pi + ItemLen(p, pi))
  }

  lemma ItemsStep(p: seq<Chr>, pi: nat)
    requires pi < |p|
    ensures Items(p, pi) != [] && Items(p, pi)[0] == ItemAt(p, pi) && Items(p, pi)[1..] == Items(p, pi + ItemLen(p, pi))
  {
  }

  // --------------------------------------------------- writing a pattern down

  predicate Special(c: Chr) {
    c == CARET || c == DOLLAR || c == DOT || c == STAR || c == OPEN || c == ESC
  }

  function SpellRange(r: (Chr, Chr)): (s: seq<Chr>)
    ensures s != []
  {
    if r.0 == r.1 then [r.0] else [r.0, 45, r.1]
  }

  function SpellRanges(rs: seq<(Chr, Chr)>): seq<Chr> {
    if rs == [] then [] else SpellRange(rs[0]) + SpellRanges(rs[1..])
  }

  /** `.`, `c`, `\c`, `[...]` and `[^...]`. */
  function SpellAtom(a: Atom): (s: seq<Chr>)
    ensures s != []
  {
    match a
    case Any => [46]
    case Lit(c) => if Special(c) then [92, c] else [c]
    case Class(neg, rs) => Opening(neg) + SpellRanges(rs) + [93]
  }

  /** `^`, `$`, an atom, or an atom with a star. */
  function SpellItem(item: Item): (s: seq<Chr>)
    ensures s != []
  {
    match item
    case Bol => [94]
    case Eol => [36]
    case One(a) => SpellAtom(a)
    case Many(a) => SpellAtom(a) + [42]
  }

  function Spell(items: seq<Item>): seq<Chr> {
    if items == [] then [] else SpellItem(items[0]) + Spell(items[1..])
  }

  /** The ends of a range that can stand in a class. */
  ghost predicate PlainRange(r: (Chr, Chr)) {
    r.0 != 0 && r.0 != CLOSE && r.0 != CARET && r.0 != DASH && r.1 != 0 && r.1 != CLOSE
  }

  /** A class can hold anything with such ends, and a closing bracket in front. */
  ghost predicate Writable(a: Atom) {
    match a
    case Any => true
    case Lit(c) => c != 0
    case Class(_, rs) =>
      rs != [] && (rs[0] == (CLOSE, CLOSE) || PlainRange(rs[0])) && forall i :: 1 <= i < |rs| ==> PlainRange(rs[i])
  }

  /** Anchors stand at the ends only. */
  ghost predicate WritableItem(item: Item, first: bool, last: bool) {
    match item
    case Bol => first
    case Eol => last
    case One(a) => Writable(a)
    case Many(a) => Writable(a)
  }

  ghost predicate WritableFrom(items: seq<Item>, first: bool) {
    forall i :: 0 <= i < |items| ==> WritableItem(items[i], first && i == 0, i == |items| - 1)
  }

  /** From position `i` on, the pattern reads `s`. */
  ghost predicate Ahead(p: seq<Chr>, i: nat, s: seq<Chr>) {
    i <= |p| && p[i..] == s
  }

  lemma Piece(p: seq<Chr>, i: nat, front: seq<Chr>, back: seq<Chr>)
    requires Ahead(p, i, front + back)
    ensures i + |front| <= |p| && Ahead(p, i + |front|, back)
    ensures forall k :: 0 <= k < |front| ==> p[i + k] == front[k]
  {
    assert p[i..][|front|..] == back;
    assert forall k :: 0 <= k < |front| ==> p[i..][k] == front[k];
  }

  lemma NextIs(p: seq<Chr>, i: nat, s: seq<Chr>)
    requires Ahead(p, i, s)
    ensures i + |s| == |p| && (s != [] ==> p[i] == s[0])
  {
  }

  lemma {:induction false} RangesSpelled(p: seq<Chr>, i: nat, rs: seq<(Chr, Chr)>, close: seq<Chr>)
    requires Ahead(p, i, SpellRanges(rs) + close) && close != [] && close[0] == CLOSE
    requires forall k :: 0 <= k < |rs| ==> PlainRange(rs[k])
    ensures i <= |p| && Ranges(p, i) == rs && BodyEnd(p, i) == i + |SpellRanges(rs)| < |p|
    decreases rs
  {
    hide Ranges, BodyEnd, SpellRange, PlainRange, Ahead;
    NextIs(p, i, SpellRanges(rs) + close);
    if rs == [] {
      RangesClosed(p, i);
    } else {
      var w, back := SpellRange(rs[0]), SpellRanges(rs[1..]) + close;
      assert SpellRanges(rs) + close == w + back;
      Piece(p, i, w, back);
      NextIs(p, i + |w|, back);
      RangesSpelled(p, i + |w|, rs[1..], close);
      FirstOfRanges(rs[1..], close);
      RangeRead(p, i, rs[0]);
    }
  }

  lemma RangesClosed(p: seq<Chr>, i: nat)
    requires i < |p| && p[i] == CLOSE
    ensures Ranges(p, i) == [] && BodyEnd(p, i) == i
  {
  }

  lemma RangeRead(p: seq<Chr>, i: nat, r: (Chr, Chr))
    requires PlainRange(r) && i + |SpellRange(r)| < |p| && p[i + |SpellRange(r)|] != DASH
    requires forall k :: 0 <= k < |SpellRange(r)| ==> p[i + k] == SpellRange(r)[k]
    ensures var next := i + |SpellRange(r)|; Ranges(p, i) == [r] + Ranges(p, next) && BodyEnd(p, i) == BodyEnd(p, next)
  {
    hide BodyEnd;
    var w := SpellRange(r);
    assert p[i] == p[i + 0] == w[0];
    if |w| == 3 { assert p[i + 1] == w[1] && p[i + 2] == w[2]; }
    if RangeAt(p, i) { BodyEndStep(p, i); }
    BodyEndStep(p, i);
  }

  lemma FirstOfRanges(rs: seq<(Chr, Chr)>, rest: seq<Chr>)
    requires rest != [] && rest[0] == CLOSE && forall k :: 0 <= k < |rs| ==> PlainRange(rs[k])
    ensures (SpellRanges(rs) + rest)[0] != DASH
  {
  }

  lemma {:induction false} BodyEndSkips(p: seq<Chr>, i: nat, n: nat)
    requires i + n <= |p| && forall k :: i <= k < i + n ==> p[k] != CLOSE
    ensures BodyEnd(p, i) == BodyEnd(p, i + n)
    decreases n
  {
    if n > 0 { BodyEndSkips(p, i + 1, n - 1); }
  }

  lemma AtomSpelled(p: seq<Chr>, pi: nat, a: Atom, rest: seq<Chr>)
    requires pi < |p| && Writable(a) && Ahead(p, pi, SpellAtom(a) + rest)
    ensures AtomAt(p, pi) == a && AtomLen(p, pi) == |SpellAtom(a)|
    ensures p[pi] != DOLLAR && p[pi] != CARET && p[pi] != STAR && !(p[pi] == ESC && Ch(p, pi + 1) == PAREN)
  {
    Piece(p, pi, SpellAtom(a), rest);
    assert p[pi] == p[pi + 0];
    hide Ahead;
    if a.Class? { ClassSpelled(p, pi, a, rest); }
  }

  lemma ClassSpelled(p: seq<Chr>, pi: nat, a: Atom, rest: seq<Chr>)
    requires pi < |p| && a.Class? && Writable(a) && Ahead(p, pi, SpellAtom(a) + rest)
    ensures ClassAt(p, pi + 1) == a && ClassEnd(p, pi + 1) == pi + |SpellAtom(a)|
  {
    hide Ranges, BodyEnd, SpellRanges, SpellAtom, PlainRange, ClassAt, BodyStart;
    var leading := a.ranges[0] == (CLOSE, CLOSE);
    var front := if leading then [CLOSE] else [];
    var body := if leading then a.ranges[1..] else a.ranges;
    ClassBack(p, pi, a, front, body, rest);
    PartedPlain(a, front, body);
    ClassRead(p, pi, a.neg, leading);
  }

  /** A leading closing bracket and the other ranges of a class. */
  ghost predicate Parted(a: Atom, front: seq<Chr>, body: seq<(Chr, Chr)>) {
    && a.Class? && a.ranges != []
    && if a.ranges[0] == (CLOSE, CLOSE) then front == [CLOSE] && body == a.ranges[1..] else front == [] && body == a.ranges
  }

  lemma PartedPlain(a: Atom, front: seq<Chr>, body: seq<(Chr, Chr)>)
    requires Parted(a, front, body) && Writable(a)
    ensures (front == [CLOSE] || (front == [] && body != [])) && forall k :: 0 <= k < |body| ==> PlainRange(body[k])
    ensures a.ranges == (if front == [] then [] else [(CLOSE, CLOSE)]) + body
  {
    hide PlainRange;
  }

  lemma ClassBack(p: seq<Chr>, pi: nat, a: Atom, front: seq<Chr>, body: seq<(Chr, Chr)>, rest: seq<Chr>)
    requires pi < |p| && a.Class? && Parted(a, front, body) && Writable(a) && Ahead(p, pi, SpellAtom(a) + rest)
    ensures var j := if a.neg then pi + 2 else pi + 1;
      && j + |front| < |p| && (a.neg ==> p[pi + 1] == CARET)
      && (if front == [] then p[j] != CLOSE && p[j] != CARET else p[j] == CLOSE)
      && Ranges(p, j + |front|) == body && BodyEnd(p, j + |front|) == pi + |SpellAtom(a)| - 1 < |p|
  {
    hide Ranges, BodyEnd, SpellRanges, SpellAtom, PlainRange, Opening, Writable, Ahead, Parted;
    PartedPlain(a, front, body);
    OpeningSize(a.neg);
    ClassText(a, front, body, rest);
    ClassParts(p, pi, a.neg, front, body, [CLOSE] + rest);
  }

  lemma ClassParts(p: seq<Chr>, pi: nat, neg: bool, front: seq<Chr>, body: seq<(Chr, Chr)>, close: seq<Chr>)
    requires pi < |p| && Ahead(p, pi, Opening(neg) + (front + (SpellRanges(body) + close))) && close != [] && close[0] == CLOSE
    requires (front == [CLOSE] || (front == [] && body != [])) && forall k :: 0 <= k < |body| ==> PlainRange(body[k])
    ensures var j := if neg then pi + 2 else pi + 1;
      && j + |front| < |p| && (neg ==> p[pi + 1] == CARET)
      && (if front == [] then p[j] != CLOSE && p[j] != CARET else p[j] == CLOSE)
      && Ranges(p, j + |front|) == body && BodyEnd(p, j + |front|) == j + |front| + |SpellRanges(body)| < |p|
  {
    hide Ranges, BodyEnd, SpellRanges, PlainRange, Opening, Ahead;
    if front == [] { FirstOfClass(body, close); }
    ClassHead(p, pi, neg, front, SpellRanges(body) + close);
    RangesSpelled(p, pi + (if neg then 2 else 1) + |front|, body, close);
  }

  /** How a class opens. */
  function Opening(neg: bool): seq<Chr> {
    if neg then [91, 94] else [91]
  }

  lemma OpeningSize(neg: bool)
    ensures |Opening(neg)| == if neg then 2 else 1
  {
  }

  lemma ClassText(a: Atom, front: seq<Chr>, body: seq<(Chr, Chr)>, rest: seq<Chr>)
    requires Parted(a, front, body)
    ensures SpellAtom(a) + rest == Opening(a.neg) + (front + (SpellRanges(body) + ([CLOSE] + rest)))
    ensures |SpellAtom(a)| == |Opening(a.neg)| + |front| + |SpellRanges(body)| + 1
  {
    ClassSplit(a.ranges, front, body);
    hide SpellRanges;
    Assoc(Opening(a.neg), front, SpellRanges(body), [CLOSE], rest);
  }

  lemma Assoc(a: seq<Chr>, b: seq<Chr>, c: seq<Chr>, d: seq<Chr>, e: seq<Chr>)
    ensures a + (b + c) + d + e == a + (b + (c + (d + e)))
  {
  }

  /** The characters in front of a class body. */
  lemma ClassHead(p: seq<Chr>, pi: nat, neg: bool, front: seq<Chr>, back: seq<Chr>)
    requires pi < |p| && Ahead(p, pi, Opening(neg) + (front + back))
    requires front == [CLOSE] || (front == [] && back != [])
    ensures var j := if neg then pi + 2 else pi + 1;
      && j + |front| <= |p| && j < |p| && Ahead(p, j + |front|, back)
      && (neg ==> p[pi + 1] == CARET) && p[j] == if front == [] then back[0] else CLOSE
  {
    var head := Opening(neg);
    Piece(p, pi, head, front + back);
    Piece(p, pi + |head|, front, back);
    NextIs(p, pi + |head|, front + back);
    hide Ahead;
    assert p[pi + |head| - 1] == p[pi + (|head| - 1)] == head[|head| - 1];
  }

  lemma ClassSplit(rs: seq<(Chr, Chr)>, front: seq<Chr>, body: seq<(Chr, Chr)>)
    requires rs != []
    requires if rs[0] == (CLOSE, CLOSE) then front == [CLOSE] && body == rs[1..] else front == [] && body == rs
    ensures SpellRanges(rs) == front + SpellRanges(body)
  {
  }

  lemma FirstOfClass(rs: seq<(Chr, Chr)>, rest: seq<Chr>)
    requires rs != [] && PlainRange(rs[0])
    ensures var s := SpellRanges(rs) + rest; s != [] && s[0] != CLOSE && s[0] != CARET
  {
  }

  lemma ClassRead(p: seq<Chr>, pi: nat, neg: bool, leading: bool)
    requires var j := if neg then pi + 2 else pi + 1;
      j < |p| && (neg ==> p[pi + 1] == CARET) && (if leading then p[j] == CLOSE else p[j] != CLOSE && (!neg ==> p[j] != CARET))
    ensures var i := (if neg then pi + 2 else pi + 1) + if leading then 1 else 0;
      BodyStart(p, pi + 1) == i <= |p| && ClassAt(p, pi + 1) == Class(neg, (if leading then [(CLOSE, CLOSE)] else []) + Ranges(p, i))
  {
    hide Ranges;
  }

  lemma ItemSpelled(p: seq<Chr>, pi: nat, item: Item, rest: seq<Chr>)
    requires pi < |p| && WritableItem(item, pi == 0, rest == []) && Ahead(p, pi, SpellItem(item) + rest)
    requires rest != [] ==> rest[0] != STAR
    ensures ItemAt(p, pi) == item && ItemLen(p, pi) == |SpellItem(item)|
    ensures !(p[pi] == ESC && Ch(p, pi + 1) == PAREN)
  {
    hide SpellAtom, AtomAt, AtomLen, Ahead;
    var w := SpellItem(item);
    Piece(p, pi, w, rest);
    NextIs(p, pi + |w|, rest);
    assert p[pi] == p[pi + 0] == w[0];
    match item
    case Bol =>
    case Eol =>
    case One(a) => AtomSpelled(p, pi, a, rest);
    case Many(a) =>
      assert w + rest == SpellAtom(a) + ([STAR] + rest);
      AtomSpelled(p, pi, a, [STAR] + rest);
      assert p[pi + (|w| - 1)] == w[|w| - 1] == STAR;
  }

  lemma SpelledStart(items: seq<Item>)
    requires items != [] && WritableFrom(items, false)
    ensures Spell(items) != [] && Spell(items)[0] != STAR
  {
    assert WritableItem(items[0], false, 0 == |items| - 1);
  }

  /** A pattern written down is read back as its items, whatever they are. */
  lemma {:induction false} SpelledItems(before: seq<Chr>, items: seq<Item>)
    requires WritableFrom(items, before == [])
    ensures var p := before + Spell(items); Items(p, |before|) == items && GroupFree(p, |before|)
    decreases items
  {
    hide ItemAt, ItemLen, SpellItem, WritableItem;
    var p, pi := before + Spell(items), |before|;
    if items == [] {
    } else {
      var w, rest := SpellItem(items[0]), Spell(items[1..]);
      assert WritableItem(items[0], before == [], 0 == |items| - 1);
      forall i | 0 <= i < |items[1..]| ensures WritableItem(items[1..][i], false, i == |items[1..]| - 1) {
        assert WritableItem(items[i + 1], false, i + 1 == |items| - 1);
      }
      if items[1..] != [] { SpelledStart(items[1..]); }
      assert Ahead(p, pi, w + rest);
      ItemSpelled(p, pi, items[0], rest);
      assert p == (before + w) + rest;
      SpelledItems(before + w, items[1..]);
    }
  }

  // ------------------------------------------------------- how far a budget goes

  /** The most steps a match can take with `left` characters of the line ahead. */
  function Cost(items: seq<Item>, left: nat): (r: nat)
    ensures r >= 1
    decreases |items|, left, 0
  {
    if items == [] || items[0].Eol? then 1
    else if items[0].Many? then 1 + Tries(items[1..], left + 1)
    else if items[0].Bol? then 1 + Cost(items[1..], left)
    else if left == 0 then 1
    else 1 + Cost(items[1..], left - 1)
  }

  /** The rest of the pattern tried behind every run of a starred atom. */
  function Tries(items: seq<Item>, ends: nat): (r: nat)
    decreases |items|, ends, 1
  {
    if ends == 0 then 0 else Tries(items, ends - 1) + Cost(items, ends - 1)
  }

  lemma {:induction false} TriesGrow(items: seq<Item>, few: nat, many: nat)
    requires few <= many
    ensures Tries(items, few) <= Tries(items, many)
    decreases many
  {
    if few < many { TriesGrow(items, few, many - 1); }
  }

  lemma {:induction false} CostGrows(items: seq<Item>, left: nat, line: nat)
    requires left <= line
    ensures Cost(items, left) <= Cost(items, line)
    decreases items
  {
    if items != [] {
      match items[0]
      case Many(_) => TriesGrow(items[1..], left + 1, line + 1);
      case Bol => CostGrows(items[1..], left, line);
      case Eol =>
      case One(_) => if left > 0 { CostGrows(items[1..], left - 1, line - 1); }
    }
  }

  function Stars(items: seq<Item>): (r: nat)
    ensures r <= |items|
  {
    if items == [] then 0 else (if items[0].Many? then 1 else 0) + Stars(items[1..])
  }

  function Power(b: nat, n: nat): (r: nat)
    ensures b >= 1 ==> r >= 1
  {
    if n == 0 then 1
    else
      var q := Power(b, n - 1);
      assert b >= 1 ==> b * q >= 1 by { if b >= 1 { Grows(b, q); } }
      b * q
  }

  lemma Grows(b: nat, q: nat)
    requires b >= 1
    ensures b * q >= q
  {
    assert (b - 1) * q >= 0;
  }

  /** Every star costs a factor of at most the length of the line and one. */
  lemma {:induction false} CostBound(items: seq<Item>, left: nat, line: nat)
    requires left <= line
    ensures Cost(items, left) <= (|items| + 1) * Power(line + 1, Stars(items))
    decreases |items|, left, 0
  {
    hide Power;
    if items != [] {
      var n, q := |items|, Power(line + 1, Stars(items[1..]));
      assert (n + 1) * Power(line + 1, Stars(items)) >= 1 + n * Power(line + 1, Stars(items)) by {
        assert (n + 1) * Power(line + 1, Stars(items)) == Power(line + 1, Stars(items)) + n * Power(line + 1, Stars(items));
      }
      if items[0].Many? {
        TriesBound(items[1..], left + 1, line);
        PowerStep(line + 1, Stars(items));
        Reorder(left + 1, line + 1, n, q);
      } else if items[0].Bol? {
        CostBound(items[1..], left, line);
      } else if items[0].One? && left > 0 {
        CostBound(items[1..], left - 1, line);
      }
    }
  }

  lemma PowerStep(b: nat, n: nat)
    requires n > 0
    ensures Power(b, n) == b * Power(b, n - 1)
  {
  }

  lemma Reorder(a: nat, b: nat, n: nat, q: nat)
    requires a <= b
    ensures a * (n * q) <= n * (b * q)
  {
    assert n * (b * q) - a * (n * q) == (b - a) * (n * q);
  }

  lemma {:induction false} TriesBound(items: seq<Item>, ends: nat, line: nat)
    requires ends <= line + 1
    ensures Tries(items, ends) <= ends * ((|items| + 1) * Power(line + 1, Stars(items)))
    decreases |items|, ends, 1
  {
    hide Power;
    if ends > 0 {
      CostBound(items, ends - 1, line);
      TriesBound(items, ends - 1, line);
      var b := (|items| + 1) * Power(line + 1, Stars(items));
      assert ends * b == (ends - 1) * b + b;
    }
  }

  lemma {:induction false} ItemsShort(p: seq<Chr>, pi: nat)
    requires pi <= |p|
    ensures |Items(p, pi)| <= |p| - pi
    decreases |p| - pi
  {
    hide ItemAt, ItemLen;
    if pi < |p| { ItemsShort(p, pi + ItemLen(p, pi)); }
  }

  /** A pattern whose stars leave enough of the 60000 steps is searched exactly. */
  lemma BudgetSuffices(p: seq<Chr>, line: nat)
    requires (|p| + 1) * Power(line + 1, Stars(Items(p, 0))) <= 60000
    ensures Cost(Items(p, 0), line) <= 60000
  {
    hide Power, Items;
    var items := Items(p, 0);
    ItemsShort(p, 0);
    CostBound(items, line, line);
    Widen(|items| + 1, |p| + 1, Power(line + 1, Stars(items)));
  }

  lemma Widen(a: nat, b: nat, q: nat)
    requires a <= b
    ensures a * q <= b * q
  {
    assert b * q - a * q == (b - a) * q;
  }

  // -------------------------------------------------------------- the matcher

  /** `rx_atom_extent`. */
  method AtomExtent(p: seq<Chr>, pi: nat) returns (n: nat)
    requires pi < |p| && 0 !in p
    ensures n == AtomLen(p, pi)
  {
    if p[pi] == OPEN {
      var q := pi + 1;
      if Ch(p, q) == CARET { q := q + 1; }
      if Ch(p, q) == CLOSE { q := q + 1; }
      assert q == BodyStart(p, pi + 1);
      ghost var end := BodyEnd(p, q);
      while Ch(p, q) != 0 && Ch(p, q) != CLOSE
        invariant q <= |p| && BodyEnd(p, q) == end
        decreases |p| - q
      {
        q := q + 1;
      }
      ZeroAtEnd(p, q);
      if Ch(p, q) != 0 { q := q + 1; }
      return q - pi;
    }
    ZeroAtEnd(p, pi + 1);
    if p[pi] == ESC && Ch(p, pi + 1) != 0 { return 2; }
    return 1;
  }

  class Matcher {
    const ic: bool
    const pat: seq<Chr>
    const line: seq<Chr>
    var budget: int

    constructor (ic: bool, pat: seq<Chr>, line: seq<Chr>)
      ensures this.ic == ic && this.pat == pat && this.line == line
    {
      this.ic, this.pat, this.line := ic, pat, line;
      budget := 0;
    }

    /** `rx_class`, from behind the opening bracket. */
    method ClassMatch(pi: nat, s: Chr) returns (r: int, i: nat)
      requires pi <= |pat| && 0 !in pat
      ensures i == ClassEnd(pat, pi) && (r == 1 <==> s != 0 && Accepts(ic, ClassAt(pat, pi), s))
    {
      var neg, ok := false, false;
      i := pi;
      if Ch(pat, i) == CARET { neg := true; i := i + 1; }
      ghost var rs: seq<(Chr, Chr)> := [];
      if Ch(pat, i) == CLOSE {
        if s == CLOSE { ok := true; }
        rs := [(CLOSE, CLOSE)];
        i := i + 1;
      }
      ghost var all := rs + Ranges(pat, i);
      ghost var end := BodyEnd(pat, i);
      assert i == BodyStart(pat, pi) && Class(neg, all) == ClassAt(pat, pi);
      Bracket(ic, rs, s);
      ok, i := ClassBody(i, s, ok, rs);
      if Ch(pat, i) == CLOSE { i := i + 1; }
      if s == 0 { return -1, i; }
      if neg { ok := !ok; }
      return (if ok then 1 else -1), i;
    }

    /** The loop over the class body. */
    method ClassBody(start: nat, s: Chr, ok0: bool, ghost before: seq<(Chr, Chr)>) returns (ok: bool, i: nat)
      requires start <= |pat| && 0 !in pat && ok0 == InRanges(ic, before, s)
      ensures i == BodyEnd(pat, start) && ok == InRanges(ic, before + Ranges(pat, start), s)
    {
      i, ok := start, ok0;
      ghost var done: seq<(Chr, Chr)> := before;
      while Ch(pat, i) != 0 && Ch(pat, i) != CLOSE
        invariant i <= |pat| && BodyEnd(pat, i) == BodyEnd(pat, start)
        invariant done + Ranges(pat, i) == before + Ranges(pat, start)
        invariant ok == InRanges(ic, done, s)
        decreases |pat| - i
      {
        BodyEndStep(pat, i);
        ghost var r: (Chr, Chr) := (pat[i], if RangeAt(pat, i) then Ch(pat, i + 2) else pat[i]);
        RangesSnoc(ic, done, r, s);
        RangesMove(done, r, Ranges(pat, if RangeAt(pat, i) then i + 3 else i + 1));
        if Ch(pat, i + 1) == DASH && Ch(pat, i + 2) != 0 && Ch(pat, i + 2) != CLOSE {
          if Fold(ic, s) >= Fold(ic, pat[i]) && Fold(ic, s) <= Fold(ic, Ch(pat, i + 2)) { ok := true; }
          i := i + 3;
        } else {
          if Fold(ic, s) == Fold(ic, pat[i]) { ok := true; }
          i := i + 1;
        }
        done := done + [r];
      }
      ZeroAtEnd(pat, i);
      assert done + [] == done;
    }

    /** `rx_atom` on one character, or on the zero behind the line. */
    method AtomMatch(pi: nat, s: Chr) returns (r: int, next: nat)
      requires pi < |pat| && 0 !in pat
      ensures next == pi + AtomLen(pat, pi) && (r == 1 <==> s != 0 && Accepts(ic, AtomAt(pat, pi), s))
    {
      var c := pat[pi];
      assert c in pat;
      next := pi + 1;
      if c == DOT { return (if s != 0 then 1 else -1), next; }
      if c == OPEN {
        r, next := ClassMatch(next, s);
        return;
      }
      ZeroAtEnd(pat, next);
      if c == ESC && Ch(pat, next) != 0 {
        var e := Ch(pat, next);
        next := next + 1;
        return (if Fold(ic, s) == Fold(ic, e) then 1 else -1), next;
      }
      return (if Fold(ic, s) == Fold(ic, c) then 1 else -1), next;
    }

    /** The longest run of a starred atom. */
    method LongestRun(pi: nat, at: nat) returns (kmax: nat)
      requires pi < |pat| && 0 !in pat && 0 !in line && at <= |line|
      ensures at + kmax <= |line|
      ensures forall k :: 0 <= k <= kmax ==> Run(ic, AtomAt(pat, pi), line, at, k)
      ensures forall k :: k > kmax ==> !Run(ic, AtomAt(pat, pi), line, at, k)
    {
      kmax := 0;
      while Ch(line, at + kmax) != 0
        invariant at + kmax <= |line| && Run(ic, AtomAt(pat, pi), line, at, kmax)
        decreases |line| - at - kmax
      {
        var r, _ := AtomMatch(pi, Ch(line, at + kmax));
        if r != 1 { break; }
        kmax := kmax + 1;
      }
      ZeroAtEnd(line, at + kmax);
    }

    /** `rxm` from pattern position `pi` and line position `at`. Success is a match; failure
        with budget left means that there is none. */
    method Match(pi: nat, at: nat) returns (ok: bool, slen: nat)
      requires pi <= |pat| && at <= |line| && 0 !in pat && 0 !in line && GroupFree(pat, pi)
      modifies this`budget
      ensures budget < old(budget) && old(budget) - budget <= Cost(Items(pat, pi), |line| - at)
      ensures ok ==> Lang(ic, Items(pat, pi), line, at, slen)
      ensures !ok && budget >= 0 ==> NoMatch(ic, Items(pat, pi), line, at)
      decreases |pat| - pi
    {
      hide AtomLen, AtomAt;
      slen := 0;
      budget := budget - 1;
      if budget < 0 { return false, 0; }
      if pi == |pat| { return true, 0; }
      ItemsStep(pat, pi);
      hide Items;
      var c := pat[pi];
      if c == CARET && pi == 0 {
        if at != 0 { return false, 0; }
        ok, slen := Match(1, at);
        BolFails(ic, Items(pat, pi), line);
        return;
      }
      if c == DOLLAR && pi + 1 == |pat| {
        NothingLeft(pat);
        ZeroAtEnd(line, at);
        if Ch(line, at) != 0 { return false, 0; }
        return true, 0;
      }
      var aext := AtomExtent(pat, pi);
      if Ch(pat, pi + aext) == STAR {
        ok, slen := MatchMany(pi, at, pi + aext + 1);
        return;
      }
      var r, pp := AtomMatch(pi, Ch(line, at));
      ZeroAtEnd(line, at);
      if r != 1 { return false, 0; }
      var rl;
      ok, rl := Match(pp, at + 1);
      if ok { return true, 1 + rl; }
      OneFails(ic, Items(pat, pi), line, at);
    }

    /** A starred atom: the longest run first, then shorter ones. */
    method MatchMany(pi: nat, at: nat, rest: nat) returns (ok: bool, slen: nat)
      requires pi < |pat| && at <= |line| && 0 !in pat && 0 !in line && GroupFree(pat, pi)
      requires ItemAt(pat, pi).Many? && rest == pi + ItemLen(pat, pi)
      modifies this`budget
      ensures 0 <= old(budget) - budget <= Tries(Items(pat, rest), |line| - at + 1)
      ensures ok ==> Lang(ic, Items(pat, pi), line, at, slen)
      ensures !ok && budget >= 0 ==> NoMatch(ic, Items(pat, pi), line, at)
      decreases |pat| - pi, 0
    {
      hide AtomLen, AtomAt, Items, Lang, NoMatch;
      ghost var items, tail := Items(pat, pi), Items(pat, rest);
      ghost var a := AtomAt(pat, pi);
      ItemsStep(pat, pi);
      var kmax := LongestRun(pi, at);
      var i := kmax as int;
      while i >= 0
        invariant -1 <= i <= kmax && 0 <= old(budget) - budget <= Tries(tail, |line| - at - i)
        invariant budget >= 0 ==> forall x :: at + i < x <= at + kmax ==> NoMatch(ic, tail, line, x)
      {
        assert Run(ic, a, line, at, i);
        var rl;
        ok, rl := Match(rest, at + i);
        if ok {
          ManyMatches(ic, items, line, at, i, rl);
          TriesGrow(tail, |line| - at - i + 1, |line| - at + 1);
          return true, i + rl;
        }
        i := i - 1;
      }
      if budget >= 0 { ManyFails(ic, items, tail, line, at, kmax); }
      return false, 0;
    }

    /** `rx_find`: the leftmost start in the line, from `from` on, unless a budget ran out
        on the way (`clean` is false then). */
    method Find(from: int) returns (start: int, mlen: nat, ghost clean: bool)
      requires from <= |line| && 0 !in pat && 0 !in line && GroupFree(pat, 0)
      modifies this`budget
      ensures start == -1 || (from <= start < |line| && start >= 0 && Lang(ic, Items(pat, 0), line, start, mlen))
      ensures Cost(Items(pat, 0), |line|) <= 60000 ==> clean
      ensures clean ==> forall i :: 0 <= i < |line| && from <= i && (start == -1 || i < start) ==> NoMatch(ic, Items(pat, 0), line, i)
    {
      clean, mlen := true, 0;
      var i: nat := if from < 0 then 0 else from;
      ghost var first := i;
      while Ch(line, i) != 0
        invariant first <= i <= |line| && (Cost(Items(pat, 0), |line|) <= 60000 ==> clean)
        invariant clean ==> forall k :: first <= k < i ==> NoMatch(ic, Items(pat, 0), line, k)
        decreases |line| - i
      {
        budget := 60000;
        CostGrows(Items(pat, 0), |line| - i, |line|);
        var ok;
        ok, mlen := Match(0, i);
        if ok { return i, mlen, clean; }
        clean := clean && budget >= 0;
        if Ch(pat, 0) == CARET {
          AnchoredElsewhere(ic, pat, line);
          return -1, mlen, clean;
        }
        i := i + 1;
      }
      ZeroAtEnd(line, i);
      return -1, mlen, clean;
    }
  }

  lemma ZeroAtEnd(p: seq<Chr>, i: nat)
    requires 0 !in p
    ensures Ch(p, i) == 0 <==> i >= |p|
  {
  }

  lemma Bracket(ic: bool, rs: seq<(Chr, Chr)>, s: Chr)
    requires rs == [] || rs == [(CLOSE, CLOSE)]
    ensures InRanges(ic, rs, s) <==> rs != [] && s == CLOSE
  {
    if rs != [] { assert InRange(ic, rs[0], s) <==> s == CLOSE; }
  }

  lemma RangesSnoc(ic: bool, rs: seq<(Chr, Chr)>, r: (Chr, Chr), b: Chr)
    ensures InRanges(ic, rs + [r], b) <==> InRanges(ic, rs, b) || InRange(ic, r, b)
  {
    var all := rs + [r];
    if InRange(ic, r, b) { assert InRange(ic, all[|rs|], b); }
    if InRanges(ic, rs, b) {
      var i :| 0 <= i < |rs| && InRange(ic, rs[i], b);
      assert InRange(ic, all[i], b);
    }
  }

  lemma RangesMove(done: seq<(Chr, Chr)>, r: (Chr, Chr), rest: seq<(Chr, Chr)>)
    ensures done + ([r] + rest) == done + [r] + rest
  {
  }

  lemma NothingLeft(p: seq<Chr>)
    ensures Items(p, |p|) == []
  {
  }

  lemma OneFails(ic: bool, items: seq<Item>, line: seq<Chr>, at: nat)
    requires items != [] && items[0].One?
    ensures at < |line| && NoMatch(ic, items[1..], line, at + 1) ==> NoMatch(ic, items, line, at)
  {
  }

  lemma ManyMatches(ic: bool, items: seq<Item>, line: seq<Chr>, at: nat, k: nat, n: nat)
    requires items != [] && items[0].Many? && Run(ic, items[0].a, line, at, k) && Lang(ic, items[1..], line, at + k, n)
    ensures Lang(ic, items, line, at, k + n)
  {
  }

  lemma ManyFails(ic: bool, items: seq<Item>, tail: seq<Item>, line: seq<Chr>, at: nat, kmax: nat)
    requires items != [] && items[0].Many? && tail == items[1..]
    requires forall k :: k > kmax ==> !Run(ic, items[0].a, line, at, k)
    requires forall x :: at <= x <= at + kmax ==> NoMatch(ic, tail, line, x)
    ensures NoMatch(ic, items, line, at)
  {
    forall n: nat ensures !Lang(ic, items, line, at, n) {
      forall k | 0 <= k <= n ensures !(Run(ic, items[0].a, line, at, k) && Lang(ic, tail, line, at + k, n - k)) {
        if k <= kmax { assert NoMatch(ic, tail, line, at + k); }
      }
    }
  }

  lemma BolFails(ic: bool, items: seq<Item>, line: seq<Chr>)
    requires items != [] && items[0].Bol?
    ensures NoMatch(ic, items[1..], line, 0) ==> NoMatch(ic, items, line, 0)
  {
  }

  /** An anchored pattern matches nowhere but at the start of the line. */
  lemma AnchoredElsewhere(ic: bool, p: seq<Chr>, line: seq<Chr>)
    requires p != [] && p[0] == CARET
    ensures forall i :: i > 0 ==> NoMatch(ic, Items(p, 0), line, i)
  {
  }

  ghost predicate Plain(p: seq<Chr>) {
    forall c :: c in p ==> c != CARET && c != DOLLAR && c != DOT && c != STAR && c != OPEN && c != ESC
  }

  function FoldAll(ic: bool, s: seq<Chr>): seq<Chr> {
    if s == [] then [] else [Fold(ic, s[0])] + FoldAll(ic, s[1..])
  }

  lemma Cons(a: Chr, s: seq<Chr>, b: Chr, t: seq<Chr>)
    ensures [a] + s == [b] + t <==> a == b && s == t
  {
    if [a] + s == [b] + t {
      assert ([a] + s)[0] == ([b] + t)[0] && ([a] + s)[1..] == s && ([b] + t)[1..] == t;
    }
  }

  /** A pattern without special characters matches itself, up to case, and nothing else. */
  lemma {:induction false} PlainPattern(ic: bool, p: seq<Chr>, pi: nat, line: seq<Chr>, at: nat, n: nat)
    requires Plain(p) && pi <= |p|
    ensures GroupFree(p, pi)
    ensures Lang(ic, Items(p, pi), line, at, n) <==> at + n <= |line| && FoldAll(ic, line[at..at + n]) == FoldAll(ic, p[pi..])
    decreases |p| - pi
  {
    hide Items, ItemAt, ItemLen, Fold, FoldAll, Lang;
    if pi == |p| {
      PlainEnd(ic, p, line, at, n);
    } else {
      PlainItem(p, pi);
      ItemsStep(p, pi);
      PlainPattern(ic, p, pi + 1, line, at + 1, if n > 0 then n - 1 else 0);
      PlainStep(ic, Items(p, pi), p, pi, line, at, n);
    }
  }

  lemma PlainEnd(ic: bool, p: seq<Chr>, line: seq<Chr>, at: nat, n: nat)
    ensures Lang(ic, Items(p, |p|), line, at, n) <==> at + n <= |line| && FoldAll(ic, line[at..at + n]) == FoldAll(ic, p[|p|..])
  {
    assert p[|p|..] == [];
  }

  lemma PlainStep(ic: bool, items: seq<Item>, p: seq<Chr>, pi: nat, line: seq<Chr>, at: nat, n: nat)
    requires pi < |p| && items != [] && items[0] == One(Lit(p[pi]))
    requires n > 0 ==>
      (Lang(ic, items[1..], line, at + 1, n - 1) <==> at + n <= |line| && FoldAll(ic, line[at + 1..at + n]) == FoldAll(ic, p[pi + 1..]))
    ensures Lang(ic, items, line, at, n) <==> at + n <= |line| && FoldAll(ic, line[at..at + n]) == FoldAll(ic, p[pi..])
  {
    hide Fold;
    assert p[pi..][1..] == p[pi + 1..];
    if n > 0 && at + n <= |line| {
      assert line[at..at + n][1..] == line[at + 1..at + n];
      Cons(Fold(ic, line[at]), FoldAll(ic, line[at + 1..at + n]), Fold(ic, p[pi]), FoldAll(ic, p[pi + 1..]));
    }
  }

  lemma PlainItem(p: seq<Chr>, pi: nat)
    requires Plain(p) && pi < |p|
    ensures ItemAt(p, pi) == One(Lit(p[pi])) && ItemLen(p, pi) == 1 && p[pi] != ESC
  {
    assert p[pi] in p;
    if pi + 1 < |p| { assert p[pi + 1] in p; }
  }
}
