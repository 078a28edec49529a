/** Path canonicalisation (`abs_path`) as a loop over a text buffer, against a fold
    of the path's components over a stack. */
module Paths {
  import opened Words

  type Text = seq<byte>

  const SLASH: byte := 47
  const DOT: byte := 46
  const PATH_MAX: nat := 255   // characters that fit FS_PATH_CAP
  const COMBINED_MAX: nat := 511
  const DEPTH_MAX: nat := 64
  const ROOT: Text := [SLASH]

  // --------------------------------------------------------------- components

  /** The length of the leading run without a slash. */
  function Span(s: Text): (k: nat)
    ensures k <= |s| && SLASH !in s[..k] && (k < |s| ==> s[k] == SLASH)
  {
    if s == [] || s[0] == SLASH then 0 else 1 + Span(s[1..])
  }

  /** The non-empty pieces between slashes. */
  function Components(s: Text): seq<Text>
    decreases s
  {
    if s == [] then []
    else if s[0] == SLASH then Components(s[1..])
    else
      var k := Span(s);
      assert k > 0;
      [s[..k]] + Components(s[k..])
  }

  /** What `abs_path` tokenises: the name itself or the name under the cwd. */
  function Combine(cwd: Text, name: Text): Text {
    if name != [] && name[0] == SLASH then name[..Min(|name|, COMBINED_MAX)]
    else
      var base := if cwd == [] then ROOT else cwd;
      var prefix := if |base| > 1 && base[|base| - 1] != SLASH then base + ROOT else base;
      (prefix + name)[..Min(|prefix + name|, COMBINED_MAX)]
  }

  // ------------------------------------------------- the buffer the code keeps

  /** The output text and the offsets where its components start. */
  datatype Buffer = Buffer(out: Text, starts: seq<nat>)

  function Push(b: Buffer, c: Text): Buffer
    requires |b.out| <= PATH_MAX
  {
    if |b.starts| >= DEPTH_MAX then b
    else
      var o := if 1 < |b.out| < PATH_MAX then b.out + ROOT else b.out;
      Buffer(o + c[..Min(|c|, PATH_MAX - |o|)], b.starts + [|o|])
  }

  function Pop(b: Buffer): Buffer {
    if b.starts == [] then b
    else
      var start := b.starts[|b.starts| - 1];
      var cut := if start > 1 then start - 1 else start;
      Buffer(b.out[..Min(cut, |b.out|)], b.starts[..|b.starts| - 1])
  }

  function StepBuffer(b: Buffer, c: Text): (r: Buffer)
    requires |b.out| <= PATH_MAX
    ensures |r.out| <= PATH_MAX
  {
    if c == [DOT] then b else if c == [DOT, DOT] then Pop(b) else Push(b, c)
  }

  function FoldBuffer(b: Buffer, cs: seq<Text>): (r: Buffer)
    requires |b.out| <= PATH_MAX
    ensures |r.out| <= PATH_MAX
    decreases cs
  {
    if cs == [] then b else FoldBuffer(StepBuffer(b, cs[0]), cs[1..])
  }

  /** The result of `abs_path` for any input, truncation included. */
  function AbsPath(cwd: Text, name: Text): (r: Text)
    ensures |r| <= PATH_MAX
  {
    FoldBuffer(Buffer(ROOT, []), Components(Combine(cwd, name))).out
  }

  // ------------------------------------------------------------ the C function

  /** `abs_path`. */
  method ComputeAbsPath(cwd: Text, name: Text) returns (out: Text)
    requires |cwd| <= 256
    ensures out == AbsPath(cwd, name)
  {
    hide Span, Components, FoldBuffer, StepBuffer, Combine;
    var combined := BuildCombined(cwd, name);
    var starts: seq<nat> := [];
    out := ROOT;
    var n, pos := 0, |combined|;
    ghost var goal := FoldBuffer(Buffer(ROOT, []), Components(combined));
    while n < pos
      invariant n <= pos && |out| <= PATH_MAX
      invariant FoldBuffer(Buffer(out, starts), Components(combined[n..])) == goal
    {
      while n < pos && combined[n] == SLASH
        invariant n <= pos
        invariant FoldBuffer(Buffer(out, starts), Components(combined[n..])) == goal
      {
        SkipSlash(combined[n..]);
        assert combined[n..][1..] == combined[n + 1..];
        n := n + 1;
      }
      if n >= pos { break; }
      var start := n;
      while n < pos && combined[n] != SLASH
        invariant start <= n <= pos
        invariant SLASH !in combined[start..n]
      {
        n := n + 1;
      }
      var c := combined[start..n];
      assert combined[start..] == c + combined[n..];
      FirstComponent(c, combined[n..]);
      FoldCons(Buffer(out, starts), c, Components(combined[n..]));
      out, starts := StepOut(out, starts, c);
    }
    FoldNothing(Buffer(out, starts), combined[n..]);
  }

  /** One component: skipped, popped or appended, with the code's bounds checks. */
  method StepOut(out: Text, starts: seq<nat>, c: Text) returns (out': Text, starts': seq<nat>)
    requires |out| <= PATH_MAX
    ensures Buffer(out', starts') == StepBuffer(Buffer(out, starts), c)
  {
    out', starts' := out, starts;
    if |c| == 1 && c[0] == DOT { return; }
    if |c| == 2 && c[0] == DOT && c[1] == DOT {
      if |starts| > 0 {
        var cut := starts[|starts| - 1];
        if cut > 1 { cut := cut - 1; }
        out' := if cut <= |out| then out[..cut] else out;
        starts' := starts[..|starts| - 1];
      }
      return;
    }
    if |starts| >= DEPTH_MAX { return; }
    if |out'| > 1 && |out'| < PATH_MAX { out' := out' + [SLASH]; }
    starts' := starts + [|out'|];
    ghost var o := out';
    var k := 0;
    while k < |c| && |out'| < PATH_MAX
      invariant k <= |c| && out' == o + c[..k] && |out'| <= PATH_MAX
    {
      out' := out' + [c[k]];
      k := k + 1;
    }
  }

  /** The two copy loops into the 512-byte buffer. */
  method BuildCombined(cwd: Text, name: Text) returns (combined: Text)
    requires |cwd| <= 256
    ensures combined == Combine(cwd, name)
  {
    combined := [];
    if name != [] && name[0] == SLASH {
      combined := AppendBounded(combined, name);
      assert [] + name == name;
    } else {
      combined := AppendBounded(combined, cwd);
      assert combined == cwd;
      if |combined| == 0 { combined := combined + [SLASH]; }
      if |combined| > 1 && combined[|combined| - 1] != SLASH { combined := combined + [SLASH]; }
      combined := AppendBounded(combined, name);
    }
  }

  method AppendBounded(buf: Text, s: Text) returns (r: Text)
    requires |buf| <= COMBINED_MAX
    ensures r == (buf + s)[..Min(|buf + s|, COMBINED_MAX)]
  {
    r := buf;
    var i := 0;
    while i < |s| && |r| < COMBINED_MAX
      invariant i <= |s| && r == buf + s[..i] && |r| <= COMBINED_MAX
    {
      r := r + [s[i]];
      i := i + 1;
    }
  }

  lemma SkipSlash(s: Text)
    requires s != [] && s[0] == SLASH
    ensures Components(s) == Components(s[1..])
  {
  }

  lemma FirstComponent(c: Text, rest: Text)
    requires c != [] && SLASH !in c && (rest == [] || rest[0] == SLASH)
    ensures Components(c + rest) == [c] + Components(rest)
  {
    assert (c + rest)[..|c|] == c && (c + rest)[|c|..] == rest;
    SpanIs(c + rest, |c|);
  }

  lemma FoldCons(b: Buffer, c: Text, cs: seq<Text>)
    requires |b.out| <= PATH_MAX
    ensures FoldBuffer(b, [c] + cs) == FoldBuffer(StepBuffer(b, c), cs)
  {
  }

  lemma FoldNothing(b: Buffer, s: Text)
    requires |b.out| <= PATH_MAX && s == []
    ensures FoldBuffer(b, Components(s)) == b
  {
  }

  lemma {:induction false} SpanIs(s: Text, k: nat)
    requires k <= |s| && SLASH !in s[..k] && (k < |s| ==> s[k] == SLASH)
    ensures Span(s) == k
  {
  }

  // -------------------------------------------------- the stack of components

  ghost predicate ProperName(c: Text) {
    c != [] && SLASH !in c && c != [DOT] && c != [DOT, DOT]
  }

  ghost predicate Proper(stack: seq<Text>) {
    forall i :: 0 <= i < |stack| ==> ProperName(stack[i])
  }

  ghost predicate Clean(cs: seq<Text>) {
    forall i :: 0 <= i < |cs| ==> cs[i] != [] && SLASH !in cs[i]
  }

  /** Each component with a slash in front. */
  function Join(stack: seq<Text>): Text {
    if stack == [] then [] else ROOT + stack[0] + Join(stack[1..])
  }

  function Render(stack: seq<Text>): Text {
    if stack == [] then ROOT else Join(stack)
  }

  function StepStack(stack: seq<Text>, c: Text): seq<Text> {
    if c == [DOT] then stack
    else if c == [DOT, DOT] then (if stack == [] then [] else stack[..|stack| - 1])
    else if |stack| >= DEPTH_MAX then stack
    else stack + [c]
  }

  function FoldStack(stack: seq<Text>, cs: seq<Text>): seq<Text>
    decreases cs
  {
    if cs == [] then stack else FoldStack(StepStack(stack, cs[0]), cs[1..])
  }

  /** How the text follows the stack: exactly while it is short of the end of the buffer,
      and otherwise at least in its first 254 characters. A text of exactly 255 has lost its
      last character when it is `cut`. */
  ghost predicate Says(out: Text, stack: seq<Text>, cut: bool) {
    var full := Render(stack);
    if |full| < PATH_MAX then out == full
    else
      && PATH_MAX - 1 <= |out| <= PATH_MAX && out[..PATH_MAX - 1] == full[..PATH_MAX - 1]
      && (|full| == PATH_MAX ==> if cut then |out| == PATH_MAX - 1 else out == full)
  }

  /** Where the code puts a component behind `stack`. */
  function StartBehind(stack: seq<Text>): nat {
    Min(|Join(stack)| + 1, PATH_MAX)
  }

  ghost predicate StartsOf(starts: seq<nat>, stack: seq<Text>) {
    |starts| == |stack| && forall i :: 0 <= i < |stack| ==> starts[i] == StartBehind(stack[..i])
  }

  ghost predicate Tracks(b: Buffer, stack: seq<Text>, cut: bool) {
    Says(b.out, stack, cut) && StartsOf(b.starts, stack)
  }

  /** Has the text lost a character it had room for? That happens when ".." leads back to
      a text of exactly 255 characters, and lasts until the next component. */
  function StepCut(stack: seq<Text>, cut: bool, c: Text): bool {
    if c == [DOT, DOT] && stack != [] then |Render(stack[..|stack| - 1])| == PATH_MAX
    else if c == [DOT] || c == [DOT, DOT] || |stack| >= DEPTH_MAX then cut
    else false
  }

  function FoldCut(stack: seq<Text>, cut: bool, cs: seq<Text>): bool
    decreases cs
  {
    if cs == [] then cut else FoldCut(StepStack(stack, cs[0]), StepCut(stack, cut, cs[0]), cs[1..])
  }

  /** The characters a list of components needs, one slash each. */
  function Weight(cs: seq<Text>): nat {
    if cs == [] then 0 else 1 + |cs[0]| + Weight(cs[1..])
  }

  lemma {:induction false} JoinPush(stack: seq<Text>, c: Text)
    ensures Join(stack + [c]) == Join(stack) + ROOT + c
  {
    if stack != [] {
      assert (stack + [c])[1..] == stack[1..] + [c];
      JoinPush(stack[1..], c);
    } else {
      assert (stack + [c])[1..] == [];
    }
  }

  lemma {:induction false} JoinWeight(stack: seq<Text>)
    ensures |Join(stack)| == Weight(stack)
  {
    if stack == [] {
    } else {
      JoinWeight(stack[1..]);
    }
  }

  lemma JoinLast(stack: seq<Text>)
    requires stack != []
    ensures Join(stack) == Join(stack[..|stack| - 1]) + ROOT + stack[|stack| - 1]
  {
    assert stack == stack[..|stack| - 1] + [stack[|stack| - 1]];
    JoinPush(stack[..|stack| - 1], stack[|stack| - 1]);
  }

  lemma RenderLength(stack: seq<Text>)
    requires Proper(stack)
    ensures stack != [] ==> Render(stack) == Join(stack) && |Join(stack)| > 1 && Join(stack)[0] == SLASH
  {
    if stack != [] { assert ProperName(stack[0]); }
  }

  lemma StartsPush(starts: seq<nat>, stack: seq<Text>, c: Text)
    requires StartsOf(starts, stack)
    ensures StartsOf(starts + [StartBehind(stack)], stack + [c])
  {
    hide StartBehind;
    var stack' := stack + [c];
    forall i | 0 <= i < |stack'| ensures (starts + [StartBehind(stack)])[i] == StartBehind(stack'[..i]) {
      assert stack'[..i] == stack[..i];
      if i == |stack| { assert stack[..i] == stack; }
    }
  }

  lemma StartsPop(starts: seq<nat>, stack: seq<Text>)
    requires StartsOf(starts, stack) && stack != []
    ensures StartsOf(starts[..|starts| - 1], stack[..|stack| - 1])
    ensures starts[|starts| - 1] == StartBehind(stack[..|stack| - 1])
  {
    hide StartBehind;
    var n := |stack| - 1;
    forall i | 0 <= i < n ensures starts[..n][i] == StartBehind(stack[..n][..i]) {
      assert stack[..n][..i] == stack[..i];
    }
  }

  /** Appending a component, as far as there is room. */
  lemma PushSays(out: Text, stack: seq<Text>, cut: bool, c: Text)
    requires Says(out, stack, cut) && Proper(stack) && ProperName(c)
    ensures var o := if 1 < |out| < PATH_MAX then out + ROOT else out;
      && |o| == StartBehind(stack) <= PATH_MAX
      && Says(o + c[..Min(|c|, PATH_MAX - |o|)], stack + [c], false)
  {
    hide Join;
    JoinPush(stack, c);
    RenderLength(stack);
    var o := if 1 < |out| < PATH_MAX then out + ROOT else out;
    var full := Render(stack + [c]);
    if stack == [] {
      JoinNothing();
      assert full == ROOT + c;
    } else {
      assert full == Render(stack) + ROOT + c;
    }
    if |Render(stack)| < PATH_MAX {
      var k := Min(|c|, PATH_MAX - |o|);
      assert full == o + c;
      assert o + c[..k] == full[..|o| + k];
      assert k == |c| ==> full[..|o| + k] == full;
    } else {
      assert c[..0] == [] && o + [] == o;
    }
  }

  lemma JoinNothing()
    ensures Join([]) == []
  {
  }

  lemma TracksPush(b: Buffer, stack: seq<Text>, cut: bool, c: Text)
    requires Tracks(b, stack, cut) && Proper(stack) && ProperName(c) && |stack| < DEPTH_MAX
    ensures |b.out| <= PATH_MAX && Tracks(Push(b, c), stack + [c], false)
  {
    hide Says, StartsOf, StartBehind;
    PushSays(b.out, stack, cut, c);
    StartsPush(b.starts, stack, c);
    StartsSize(b.starts, stack);
  }

  lemma StartsSize(starts: seq<nat>, stack: seq<Text>)
    requires StartsOf(starts, stack)
    ensures |starts| == |stack|
  {
  }

  lemma TracksPop(b: Buffer, stack: seq<Text>, cut: bool)
    requires Tracks(b, stack, cut) && stack != [] && Proper(stack)
    ensures var init := stack[..|stack| - 1]; Tracks(Pop(b), init, |Render(init)| == PATH_MAX)
  {
    hide Says, StartsOf, StartBehind;
    PopSays(b.out, stack, cut);
    StartsSize(b.starts, stack);
    StartsPop(b.starts, stack);
  }

  /** Cutting the text where its last component starts, one character earlier behind the
      first. */
  lemma PopSays(out: Text, stack: seq<Text>, cut: bool)
    requires Says(out, stack, cut) && stack != [] && Proper(stack)
    ensures var init := stack[..|stack| - 1];
      var start := StartBehind(init);
      var end := if start > 1 then start - 1 else start;
      Says(out[..Min(end, |out|)], init, |Render(init)| == PATH_MAX)
  {
    hide Join;
    var init := stack[..|stack| - 1];
    JoinLast(stack);
    RenderLength(stack);
    assert Proper(init);
    RenderLength(init);
    if init == [] {
      JoinNothing();
      assert out[..1] == ROOT;
    } else {
      assert Join(stack)[..|Join(init)|] == Join(init);
    }
  }

  /** Whatever happens, the buffer follows the stack. */
  lemma {:induction false} FoldTracks(b: Buffer, stack: seq<Text>, cut: bool, cs: seq<Text>)
    requires Tracks(b, stack, cut) && |stack| <= DEPTH_MAX && Proper(stack) && Clean(cs)
    ensures |b.out| <= PATH_MAX && Tracks(FoldBuffer(b, cs), FoldStack(stack, cs), FoldCut(stack, cut, cs))
    ensures Proper(FoldStack(stack, cs)) && |FoldStack(stack, cs)| <= DEPTH_MAX
    decreases cs
  {
    hide Tracks, Push, Pop;
    assert |b.out| <= PATH_MAX by { TracksBound(b, stack, cut); }
    if cs == [] {
    } else {
      var c := cs[0];
      assert ProperName(c) || c == [DOT] || c == [DOT, DOT];
      TracksStep(b, stack, cut, c);
      FoldTracks(StepBuffer(b, c), StepStack(stack, c), StepCut(stack, cut, c), cs[1..]);
    }
  }

  lemma TracksBound(b: Buffer, stack: seq<Text>, cut: bool)
    requires Tracks(b, stack, cut)
    ensures |b.out| <= PATH_MAX
  {
  }

  lemma TracksStep(b: Buffer, stack: seq<Text>, cut: bool, c: Text)
    requires Tracks(b, stack, cut) && |stack| <= DEPTH_MAX && Proper(stack) && |b.out| <= PATH_MAX
    requires ProperName(c) || c == [DOT] || c == [DOT, DOT]
    ensures Tracks(StepBuffer(b, c), StepStack(stack, c), StepCut(stack, cut, c))
    ensures Proper(StepStack(stack, c)) && |StepStack(stack, c)| <= DEPTH_MAX
  {
    if c == [DOT] {
    } else if c == [DOT, DOT] {
      if stack != [] { TracksPop(b, stack, cut); }
    } else if |stack| < DEPTH_MAX {
      TracksPush(b, stack, cut, c);
    }
  }

  /** While everything fits, nothing is lost. */
  lemma {:induction false} FoldFits(stack: seq<Text>, cs: seq<Text>)
    requires |Join(stack)| + Weight(cs) <= PATH_MAX
    ensures !FoldCut(stack, false, cs) && |Join(FoldStack(stack, cs))| <= PATH_MAX
    decreases cs
  {
    if cs == [] {
    } else {
      if stack != [] { JoinLast(stack); }
      JoinPush(stack, cs[0]);
      FoldFits(StepStack(stack, cs[0]), cs[1..]);
    }
  }

  lemma {:induction false} ComponentsClean(s: Text)
    ensures Clean(Components(s))
    ensures Weight(Components(s)) <= |s| + 1
    ensures s != [] && s[0] == SLASH ==> Weight(Components(s)) <= |s|
    decreases s
  {
    if s == [] {
    } else {
      if s[0] == SLASH {
        ComponentsClean(s[1..]);
      } else {
        var k := Span(s);
        ComponentsClean(s[k..]);
        assert ([s[..k]] + Components(s[k..]))[1..] == Components(s[k..]);
      }
    }
  }

  // ----------------------------------------------------------------- theorems

  /** The components of a path in the file system, as a stack. */
  function Canonical(cwd: Text, name: Text): seq<Text> {
    FoldStack([], Components(Combine(cwd, name)))
  }

  ghost predicate Absolute(s: Text) {
    s != [] && s[0] == SLASH
  }

  /** Does the whole path survive? It must be at most 255 characters long, and when it is
      exactly 255, the last component that counted must not have been a "..". */
  predicate Survives(cwd: Text, name: Text) {
    var cs := Components(Combine(cwd, name));
    |Render(FoldStack([], cs))| <= PATH_MAX && !(|Render(FoldStack([], cs))| == PATH_MAX && FoldCut([], false, cs))
  }

  /** For every input: `abs_path` is the rendering of the component fold, without empty, "."
      or ".." components, exactly when the path survives. */
  lemma AbsPathExact(cwd: Text, name: Text)
    ensures AbsPath(cwd, name) == Render(Canonical(cwd, name)) <==> Survives(cwd, name)
    ensures Proper(Canonical(cwd, name)) && |Canonical(cwd, name)| <= DEPTH_MAX
    ensures Absolute(AbsPath(cwd, name))
  {
    hide FoldBuffer, FoldStack, FoldCut, Join, Combine, Components;
    var cs := Components(Combine(cwd, name));
    ComponentsClean(Combine(cwd, name));
    JoinNothing();
    FoldTracks(Buffer(ROOT, []), [], false, cs);
    RenderLength(Canonical(cwd, name));
    assert AbsPath(cwd, name)[..1] == Render(Canonical(cwd, name))[..1];
  }

  /** In particular when the combined path is at most 255 characters long. */
  lemma AbsPathIsCanonical(cwd: Text, name: Text)
    requires Absolute(cwd) && |Combine(cwd, name)| <= PATH_MAX
    ensures AbsPath(cwd, name) == Render(Canonical(cwd, name))
    ensures Proper(Canonical(cwd, name)) && |Canonical(cwd, name)| <= DEPTH_MAX
  {
    var s := Combine(cwd, name);
    assert Absolute(s);
    ComponentsClean(s);
    FoldFits([], Components(s));
    AbsPathExact(cwd, name);
  }

  /** A canonical path: the rendering of its own proper components. */
  ghost predicate Canon(p: Text) {
    && Proper(Components(p)) && |Components(p)| <= DEPTH_MAX
    && Render(Components(p)) == p && |p| <= PATH_MAX
  }

  lemma SurvivorCanon(cwd: Text, name: Text)
    requires Survives(cwd, name)
    ensures Canon(AbsPath(cwd, name))
  {
    AbsPathExact(cwd, name);
    ComponentsOfRender(Canonical(cwd, name));
  }

  /** Below 65 levels the depth limit never acts: the fold is the plain one that
      skips ".", pops on ".." (never past the root) and pushes everything else. */
  function PlainFold(stack: seq<Text>, cs: seq<Text>): seq<Text>
    decreases cs
  {
    if cs == [] then stack else PlainFold(PlainStep(stack, cs[0]), cs[1..])
  }

  function PlainStep(stack: seq<Text>, c: Text): seq<Text> {
    if c == [DOT] then stack
    else if c == [DOT, DOT] then (if stack == [] then [] else stack[..|stack| - 1])
    else stack + [c]
  }

  ghost predicate NeverDeeper(stack: seq<Text>, cs: seq<Text>) {
    forall k :: 0 <= k <= |cs| ==> |PlainFold(stack, cs[..k])| <= DEPTH_MAX
  }

  lemma {:induction false} DepthLimitIdle(stack: seq<Text>, cs: seq<Text>)
    requires NeverDeeper(stack, cs)
    ensures FoldStack(stack, cs) == PlainFold(stack, cs)
    decreases cs
  {
    if cs == [] {
    } else {
      var stack' := PlainStep(stack, cs[0]);
      assert cs[..1][1..] == [] && |PlainFold(stack, cs[..1])| <= DEPTH_MAX;
      forall k | 0 <= k <= |cs[1..]| ensures |PlainFold(stack', cs[1..][..k])| <= DEPTH_MAX {
        assert cs[..k + 1][1..] == cs[1..][..k];
        assert |PlainFold(stack, cs[..k + 1])| <= DEPTH_MAX;
      }
      DepthLimitIdle(stack', cs[1..]);
    }
  }

  lemma ComponentsOfRender(stack: seq<Text>)
    requires Proper(stack)
    ensures Components(Render(stack)) == stack
  {
    assert Clean(stack) by { assert forall i :: 0 <= i < |stack| ==> ProperName(stack[i]); }
    ComponentsOfClean(stack);
    if stack == [] { assert ROOT[1..] == []; }
  }

  /** Different stacks have different texts. */
  lemma RenderInjective(a: seq<Text>, b: seq<Text>)
    requires Proper(a) && Proper(b) && Render(a) == Render(b)
    ensures a == b
  {
    ComponentsOfRender(a);
    ComponentsOfRender(b);
  }

  lemma {:induction false} FoldProper(stack: seq<Text>, cs: seq<Text>)
    requires Proper(cs) && |stack| + |cs| <= DEPTH_MAX
    ensures FoldStack(stack, cs) == stack + cs
    decreases cs
  {
    if cs == [] {
    } else {
      assert ProperName(cs[0]);
      FoldProper(stack + [cs[0]], cs[1..]);
      assert stack + [cs[0]] + cs[1..] == stack + cs;
    }
  }

  /** `abs_path` is the identity on canonical paths, whatever the cwd. */
  lemma CanonicalFixed(cwd: Text, stack: seq<Text>)
    requires Absolute(cwd) && Proper(stack) && |stack| <= DEPTH_MAX && |Render(stack)| <= PATH_MAX
    ensures AbsPath(cwd, Render(stack)) == Render(stack)
    ensures Canonical(cwd, Render(stack)) == stack
  {
    var p := Render(stack);
    assert p[0] == SLASH && Combine(cwd, p) == p;
    ComponentsOfRender(stack);
    FoldProper([], stack);
    assert [] + stack == stack;
    AbsPathIsCanonical(cwd, p);
  }

  /** Applying `abs_path` twice changes nothing exactly when the first result is
      canonical, which it is whenever the path survives. */
  lemma AbsPathIdempotent(cwd: Text, cwd': Text, name: Text)
    requires Absolute(cwd')
    ensures AbsPath(cwd', AbsPath(cwd, name)) == AbsPath(cwd, name) <==> Canon(AbsPath(cwd, name))
    ensures Survives(cwd, name) ==> Canon(AbsPath(cwd, name))
  {
    hide FoldBuffer, FoldStack, FoldCut;
    var p := AbsPath(cwd, name);
    AbsPathExact(cwd, name);
    assert Combine(cwd', p) == p;
    AbsPathIsCanonical(cwd', p);
    if Canon(p) { CanonicalFixed(cwd', Components(p)); }
    if AbsPath(cwd', p) == p { ComponentsOfRender(Canonical(cwd', p)); }
    if Survives(cwd, name) { SurvivorCanon(cwd, name); }
  }

  // ------------------------------------------- what is looked up under the cwd

  /** A slash between two texts separates their components. */
  lemma {:induction false} ComponentsSplit(s: Text, t: Text)
    requires t == [] || t[0] == SLASH
    ensures Components(s + t) == Components(s) + Components(t)
    decreases s
  {
    hide Span;
    if s == [] {
      assert s + t == t;
    } else if s[0] == SLASH {
      assert (s + t)[1..] == s[1..] + t;
      ComponentsSplit(s[1..], t);
    } else {
      SpanPositive(s);
      SplitWord(s, t);
      ComponentsSplit(s[Span(s)..], t);
    }
  }

  lemma SpanPositive(s: Text)
    requires s != [] && s[0] != SLASH
    ensures Span(s) > 0
  {
  }

  lemma SplitWord(s: Text, t: Text)
    requires s != [] && s[0] != SLASH && (t == [] || t[0] == SLASH)
    ensures Components(s + t) == [s[..Span(s)]] + Components(s[Span(s)..] + t)
  {
    hide Components, Span;
    SpanPositive(s);
    var k := Span(s);
    var rest := s[k..] + t;
    assert s + t == s[..k] + rest;
    assert rest == [] || rest[0] == SLASH;
    FirstComponent(s[..k], rest);
  }

  lemma {:induction false} FoldAppend(stack: seq<Text>, cs: seq<Text>, ds: seq<Text>)
    ensures FoldStack(stack, cs + ds) == FoldStack(FoldStack(stack, cs), ds)
    decreases cs
  {
    hide StepStack;
    if cs == [] {
      assert cs + ds == ds;
    } else {
      assert (cs + ds)[1..] == cs[1..] + ds;
      FoldAppend(StepStack(stack, cs[0]), cs[1..], ds);
    }
  }

  lemma {:induction false} FoldCutAppend(stack: seq<Text>, cut: bool, cs: seq<Text>, ds: seq<Text>)
    ensures FoldCut(stack, cut, cs + ds) == FoldCut(FoldStack(stack, cs), FoldCut(stack, cut, cs), ds)
    decreases cs
  {
    hide StepStack, StepCut;
    if cs == [] {
      assert cs + ds == ds;
    } else {
      assert (cs + ds)[1..] == cs[1..] + ds;
      FoldCutAppend(StepStack(stack, cs[0]), StepCut(stack, cut, cs[0]), cs[1..], ds);
    }
  }

  lemma {:induction false} ProperNeverCut(stack: seq<Text>, cs: seq<Text>)
    requires Proper(cs)
    ensures !FoldCut(stack, false, cs)
    decreases cs
  {
    if cs == [] {
    } else {
      assert ProperName(cs[0]);
      ProperNeverCut(StepStack(stack, cs[0]), cs[1..]);
    }
  }

  /** How much of a name the combined text has room for. */
  ghost function Room(cwd: Text, name: Text): int {
    511 - if Absolute(name) then 0 else if cwd == ROOT then 1 else |cwd| + 1
  }

  lemma CombinedComponents(cwd: Text, name: Text)
    requires Canon(cwd)
    ensures Components(Combine(cwd, name)) ==
      (if Absolute(name) then [] else Components(cwd)) + Components(name[..Min(|name|, Room(cwd, name))])
  {
    hide Components, Canon;
    CanonEnd(cwd);
    var kept := name[..Min(|name|, Room(cwd, name))];
    if Absolute(name) {
      assert Combine(cwd, name) == kept;
    } else if cwd == ROOT {
      assert Combine(cwd, name) == ROOT + kept;
      SkipSlash(ROOT + kept);
      assert (ROOT + kept)[1..] == kept;
      RootHasNone();
    } else {
      assert Combine(cwd, name) == cwd + (ROOT + kept);
      ComponentsSplit(cwd, ROOT + kept);
      SkipSlash(ROOT + kept);
      assert (ROOT + kept)[1..] == kept;
    }
  }

  lemma RootHasNone()
    ensures Components(ROOT) == []
  {
  }

  /** A canonical path other than the root does not end in a slash. */
  lemma CanonEnd(p: Text)
    requires Canon(p)
    ensures 1 <= |p| <= PATH_MAX && (p != ROOT ==> |p| > 1 && p[|p| - 1] != SLASH)
  {
    hide Components, Join;
    var cs := Components(p);
    if cs != [] {
      JoinLast(cs);
      RenderLength(cs);
      var c := cs[|cs| - 1];
      assert ProperName(c) && p[|p| - 1] == c[|c| - 1] && c[|c| - 1] in c;
    }
  }

  /** A name with a leading slash starts from the root and any other name from the cwd; its
      components, as far as the combined text holds them, are then followed one by one. */
  lemma CanonicalFrom(cwd: Text, name: Text)
    requires Canon(cwd)
    ensures Canonical(cwd, name) ==
      FoldStack(if Absolute(name) then [] else Components(cwd), Components(name[..Min(|name|, Room(cwd, name))]))
  {
    hide Components, Combine, StepStack;
    CombinedComponents(cwd, name);
    if Absolute(name) {
      assert [] + Components(name[..Min(|name|, Room(cwd, name))]) == Components(name[..Min(|name|, Room(cwd, name))]);
    } else {
      FoldAppend([], Components(cwd), Components(name[..Min(|name|, Room(cwd, name))]));
      FoldProper([], Components(cwd));
      assert [] + Components(cwd) == Components(cwd);
    }
  }

  lemma WordAlone(c: Text)
    requires c != [] && SLASH !in c
    ensures Components(c) == [c] && !Absolute(c)
  {
    FirstComponent(c, []);
    assert c + [] == c && c[0] in c;
  }

  /** A plain name means the entry of that name below the cwd. */
  lemma EntryBelow(cwd: Text, c: Text)
    requires Canon(cwd) && ProperName(c) && |Components(cwd)| < DEPTH_MAX
    requires (if cwd == ROOT then 1 else |cwd| + 1) + |c| <= PATH_MAX
    ensures AbsPath(cwd, c) == (if cwd == ROOT then ROOT else cwd + ROOT) + c == Render(Components(cwd) + [c])
  {
    hide Components, Join, Combine, AbsPath, Canonical, FoldStack;
    WordAlone(c);
    CanonEnd(cwd);
    CanonicalFrom(cwd, c);
    assert c[..|c|] == c;
    OneStep(Components(cwd), c);
    assert Absolute(cwd) by { RenderLength(Components(cwd)); }
    CombineShort(cwd, c);
    AbsPathIsCanonical(cwd, c);
    JoinPush(Components(cwd), c);
    JoinNothing();
    RenderLength(Components(cwd));
  }

  lemma CombineShort(cwd: Text, c: Text)
    requires Absolute(cwd) && !Absolute(c) && |c| <= PATH_MAX && |cwd| <= PATH_MAX
    ensures |Combine(cwd, c)| <= (if cwd == ROOT then 1 else |cwd| + 1) + |c|
  {
  }

  /** "." is the cwd and ".." the directory above it; above the root is the root. */
  lemma DotsMean(cwd: Text)
    requires Canon(cwd)
    ensures AbsPath(cwd, [DOT]) == cwd
    ensures var cs := Components(cwd); AbsPath(cwd, [DOT, DOT]) == Render(if cs == [] then [] else cs[..|cs| - 1])
  {
    hide Components, Combine, FoldBuffer, Join;
    var cs := Components(cwd);
    CanonEnd(cwd);
    FoldProper([], cs);
    assert [] + cs == cs;
    ProperNeverCut([], cs);
    forall d | d == [DOT] || d == [DOT, DOT]
      ensures AbsPath(cwd, d) == Render(StepStack(cs, d))
    {
      WordAlone(d);
      CombinedComponents(cwd, d);
      assert d[..|d|] == d;
      FoldAppend([], cs, [d]);
      FoldCutAppend([], false, cs, [d]);
      OneStep(cs, d);
      if cs != [] { UpShorter(cs); }
      AbsPathExact(cwd, d);
    }
  }

  lemma OneStep(stack: seq<Text>, c: Text)
    ensures FoldStack(stack, [c]) == StepStack(stack, c) && FoldCut(stack, false, [c]) == StepCut(stack, false, c)
  {
  }

  lemma UpShorter(cs: seq<Text>)
    requires Proper(cs) && cs != []
    ensures |Render(cs[..|cs| - 1])| < |Render(cs)|
  {
    hide Join;
    assert ProperName(cs[|cs| - 1]);
    JoinLast(cs);
    JoinNothing();
    RenderLength(cs);
  }

  /** A path that does not survive need not even come out canonical: when the text is full,
      a component that adds nothing still records a start, and the next ".." cuts a
      character of its predecessor. Here the result has an empty component. */
  lemma TruncationBreaks(a: Text)
    requires |a| == 252 && SLASH !in a
    ensures AbsPath(ROOT, Join([a, [120], [121], [DOT, DOT], [122]])) == Join([a]) + [SLASH, SLASH]
  {
    var cs := [a, [120], [121], [DOT, DOT], [122]];
    hide Components, FoldBuffer, StepBuffer;
    ComponentsOfClean(cs);
    WeightFive(cs);
    CombinedShort(cs);
    FoldFive(Buffer(ROOT, []), cs);
    TruncationSteps(a);
    assert Join([a]) == ROOT + a + Join([a][1..]);
  }

  lemma CombinedShort(cs: seq<Text>)
    requires cs != [] && Weight(cs) <= COMBINED_MAX
    ensures Combine(ROOT, Join(cs)) == Join(cs)
  {
    JoinWeight(cs);
    assert Join(cs)[0] == SLASH;
  }

  lemma WeightFive(cs: seq<Text>)
    requires |cs| == 5
    ensures Weight(cs) == 5 + |cs[0]| + |cs[1]| + |cs[2]| + |cs[3]| + |cs[4]|
  {
    assert Weight(cs[4..]) == 1 + |cs[4]| + Weight(cs[4..][1..]);
    assert cs[1..][1..] == cs[2..] && cs[2..][1..] == cs[3..] && cs[3..][1..] == cs[4..];
    assert Weight(cs[3..]) == 1 + |cs[3]| + Weight(cs[4..]);
    assert Weight(cs[2..]) == 1 + |cs[2]| + Weight(cs[3..]);
    assert Weight(cs[1..]) == 1 + |cs[1]| + Weight(cs[2..]);
  }

  lemma FoldFive(b: Buffer, cs: seq<Text>)
    requires |b.out| <= PATH_MAX && |cs| == 5
    ensures FoldBuffer(b, cs) ==
      StepBuffer(StepBuffer(StepBuffer(StepBuffer(StepBuffer(b, cs[0]), cs[1]), cs[2]), cs[3]), cs[4])
  {
    hide StepBuffer;
    var b1 := StepBuffer(b, cs[0]);
    var b2 := StepBuffer(b1, cs[1]);
    var b3 := StepBuffer(b2, cs[2]);
    assert FoldBuffer(b, cs) == FoldBuffer(b1, cs[1..]);
    assert FoldBuffer(b1, cs[1..]) == FoldBuffer(b2, cs[1..][1..]);
    assert FoldBuffer(b2, cs[2..]) == FoldBuffer(b3, cs[2..][1..]);
    assert cs[1..][1..] == cs[2..] && cs[2..][1..] == cs[3..] && cs[3..][1..] == cs[4..];
    assert FoldBuffer(b3, cs[3..]) == FoldBuffer(StepBuffer(b3, cs[3]), cs[4..]);
  }

  lemma TruncationSteps(a: Text)
    requires |a| == 252 && SLASH !in a
    ensures
      var b2 := StepBuffer(StepBuffer(Buffer(ROOT, []), a), [120]);
      StepBuffer(StepBuffer(StepBuffer(b2, [121]), [DOT, DOT]), [122]).out == ROOT + a + [SLASH, SLASH]
  {
  }

  lemma {:induction false} ComponentsOfClean(cs: seq<Text>)
    requires Clean(cs)
    ensures Components(Join(cs)) == cs
  {
    if cs == [] {
    } else {
      ComponentsOfClean(cs[1..]);
      assert Join(cs) == ROOT + (cs[0] + Join(cs[1..]));
      SkipSlash(Join(cs));
      assert Join(cs)[1..] == cs[0] + Join(cs[1..]);
      FirstComponent(cs[0], Join(cs[1..]));
    }
  }
}
