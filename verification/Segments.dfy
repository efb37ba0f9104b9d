/** Slash-separated segments of a path, and the stack that resolves "." and ".." among them. */
module Segments {
  import opened Bytes

  type segments = seq<bytes>

  const DOTSEG: bytes := [DOT]
  const DOTDOTSEG: bytes := [DOT, DOT]
  const SLASHSLASH: bytes := [SLASH, SLASH]
  const SLASHDOTSLASH: bytes := [SLASH, DOT, SLASH]
  const SLASHDOTDOTSLASH: bytes := [SLASH, DOT, DOT, SLASH]
  const SLASHDOTDOT: bytes := [SLASH, DOT, DOT]
  const SLASHDOT: bytes := [SLASH, DOT]

  // ---- Splitting and joining --------------------------------------------------------------

  /** Puts one more byte in front of a split text. */
  function Glue(c: byte, t: segments): (segs: segments)
    requires |t| >= 1
    ensures |segs| >= 1
  {
    if c == SLASH then [[]] + t else [[c] + t[0]] + t[1..]
  }

  function Split(s: bytes): (segs: segments)
    ensures |segs| >= 1
  {
    if s == [] then [[]] else Glue(s[0], Split(s[1..]))
  }

  function Join(segs: segments): bytes
    requires |segs| >= 1
  {
    if |segs| == 1 then segs[0] else segs[0] + ([SLASH] + Join(segs[1..]))
  }

  ghost predicate SlashFree(segs: segments) {
    forall i :: 0 <= i < |segs| ==> SLASH !in segs[i]
  }

  lemma JoinGlue(c: byte, t: segments)
    requires |t| >= 1
    ensures Join(Glue(c, t)) == [c] + Join(t)
  {
    var g := Glue(c, t);
    if c == SLASH {
      assert g[1..] == t;
    } else if |t| > 1 {
      assert g[1..] == t[1..];
      Regroup([c], t[0], [SLASH] + Join(t[1..]));
    }
  }

  lemma {:induction false} JoinSplit(s: bytes)
    ensures Join(Split(s)) == s
    ensures SlashFree(Split(s))
  {
    if s != [] {
      JoinSplit(s[1..]);
      JoinGlue(s[0], Split(s[1..]));
      assert s == [s[0]] + s[1..];
    }
  }

  lemma {:induction false} SplitNoSlash(s: bytes)
    requires SLASH !in s
    ensures Split(s) == [s]
  {
    if s != [] {
      SplitNoSlash(s[1..]);
      assert Split(s[1..]) == [s[1..]];
      assert [s[0]] + s[1..] == s;
    }
  }

  lemma GlueConcat(c: byte, t: segments, u: segments)
    requires |t| >= 1
    ensures Glue(c, t + u) == Glue(c, t) + u
  {
    assert (t + u)[0] == t[0] && (t + u)[1..] == t[1..] + u;
  }

  /** A slash between two strings separates their segments. */
  lemma {:induction false} SplitConcat(a: bytes, b: bytes)
    ensures Split(a + [SLASH] + b) == Split(a) + Split(b)
  {
    var s := a + [SLASH] + b;
    if a == [] {
      assert s[1..] == b;
    } else {
      assert s[0] == a[0] && s[1..] == a[1..] + [SLASH] + b;
      SplitConcat(a[1..], b);
      GlueConcat(a[0], Split(a[1..]), Split(b));
    }
  }

  lemma {:induction false} SplitJoin(segs: segments)
    requires |segs| >= 1 && SlashFree(segs)
    ensures Split(Join(segs)) == segs
  {
    SplitNoSlash(segs[0]);
    if |segs| > 1 {
      SplitJoin(segs[1..]);
      Regroup(segs[0], [SLASH], Join(segs[1..]));
      SplitConcat(segs[0], Join(segs[1..]));
    }
  }

  lemma {:induction false} JoinConcat(a: segments, b: segments)
    requires |a| >= 1 && |b| >= 1
    ensures Join(a + b) == Join(a) + [SLASH] + Join(b)
  {
    if |a| == 1 {
      assert (a + b)[1..] == b;
    } else {
      JoinConcat(a[1..], b);
      assert (a + b)[1..] == a[1..] + b;
    }
  }

  // ---- The segment stack ------------------------------------------------------------------

  function Pop(stack: segments): segments {
    if stack == [] then [] else stack[..|stack| - 1]
  }

  /** One inner segment: empty ones and "." change nothing, ".." climbs but never above the root. */
  function Push(stack: segments, seg: bytes): segments {
    if seg == [] || seg == DOTSEG then stack
    else if seg == DOTDOTSEG then Pop(stack)
    else stack + [seg]
  }

  function Run(stack: segments, segs: segments): segments
    decreases |segs|
  {
    if segs == [] then stack else Run(Push(stack, segs[0]), segs[1..])
  }

  lemma {:induction false} RunConcat(stack: segments, a: segments, b: segments)
    ensures Run(stack, a + b) == Run(Run(stack, a), b)
    decreases |a|
  {
    if a == [] {
      assert a + b == b;
    } else {
      RunConcat(Push(stack, a[0]), a[1..], b);
      assert (a + b)[1..] == a[1..] + b;
    }
  }

  predicate Ordinary(seg: bytes) {
    seg != [] && seg != DOTSEG && seg != DOTDOTSEG
  }

  ghost predicate AllOrdinary(segs: segments) {
    forall i :: 0 <= i < |segs| ==> Ordinary(segs[i])
  }

  /** The stack holds only ordinary segments, each of them one of the input. */
  lemma {:induction false} RunOrdinary(stack: segments, segs: segments)
    requires AllOrdinary(stack) && SlashFree(stack) && SlashFree(segs)
    ensures AllOrdinary(Run(stack, segs)) && SlashFree(Run(stack, segs))
    decreases |segs|
  {
    if segs != [] {
      RunOrdinary(Push(stack, segs[0]), segs[1..]);
    }
  }

  lemma {:induction false} RunOfOrdinary(stack: segments, segs: segments)
    requires AllOrdinary(segs)
    ensures Run(stack, segs) == stack + segs
    decreases |segs|
  {
    if segs != [] {
      RunOfOrdinary(stack + [segs[0]], segs[1..]);
      assert stack + segs == stack + [segs[0]] + segs[1..];
    }
  }

  // ---- Resolution of a rooted path --------------------------------------------------------

  predicate Rooted(p: bytes) {
    |p| > 0 && p[0] == SLASH
  }

  function Inner(segs: segments): segments
    requires |segs| >= 2
  {
    segs[1..|segs| - 1]
  }

  function Last(segs: segments): bytes
    requires |segs| >= 1
  {
    segs[|segs| - 1]
  }

  /** The path "/" + inner segments + last segment. */
  function PathOf(stack: segments, last: bytes): bytes {
    Join([[]] + stack + [last])
  }

  /** The last segment is kept as it is, except that ".." climbs and leaves a slash. */
  function Finish(stack: segments, last: bytes): bytes {
    if last == DOTDOTSEG then PathOf(Pop(stack), []) else PathOf(stack, last)
  }

  lemma {:induction false} RootedSegments(p: bytes)
    requires Rooted(p)
    ensures |Split(p)| >= 2 && Split(p)[0] == []
    ensures Split(p) == [[]] + Inner(Split(p)) + [Last(Split(p))]
  {
    assert p == [] + [SLASH] + p[1..];
    SplitConcat([], p[1..]);
  }

  /** The resolution of "" + inner segments + last segment. */
  function ResolveSegments(segs: segments): bytes
    requires |segs| >= 2
  {
    Finish(Run([], Inner(segs)), Last(segs))
  }

  /** What the server takes a decoded rooted path to mean. */
  function Resolve(p: bytes): bytes
    requires Rooted(p)
  {
    RootedSegments(p);
    ResolveSegments(Split(p))
  }

  lemma RunElide(a: segments, mid: segments, b: segments)
    requires Run(Run([], a), mid) == Run([], a)
    ensures Run([], a + mid + b) == Run([], a + b)
  {
    RunConcat([], a + mid, b);
    RunConcat([], a, mid);
    RunConcat([], a, b);
  }

  lemma InnerConcat(a: segments, b: segments)
    requires |a| >= 1 && |b| >= 1
    ensures Inner(a + b) == a[1..] + b[..|b| - 1] && Last(a + b) == Last(b)
  {
  }

  /** Inner segments that leave the stack as it was can be elided. */
  lemma Elide(a: segments, mid: segments, b: segments)
    requires |a| >= 1 && |b| >= 1
    requires Run(Run([], a[1..]), mid) == Run([], a[1..])
    ensures ResolveSegments(a + mid + b) == ResolveSegments(a + b)
  {
    var ia, ib := a[1..], b[..|b| - 1];
    InnerConcat(a + mid, b);
    InnerConcat(a, b);
    assert Inner(a + mid + b) == ia + mid + ib by {
      assert (a + mid)[1..] == ia + mid;
    }
    assert Run([], Inner(a + mid + b)) == Run([], Inner(a + b)) by {
      RunElide(ia, mid, ib);
    }
  }

  lemma RunDrop(stack: segments, seg: bytes)
    requires seg == [] || seg == DOTSEG
    ensures Run(stack, [seg]) == stack
  {
    assert [seg][1..] == [];
  }

  lemma RunClimb(stack: segments, seg: bytes)
    requires Ordinary(seg)
    ensures Run(stack, [seg, DOTDOTSEG]) == stack
  {
    assert [seg, DOTDOTSEG][1..] == [DOTDOTSEG] && [DOTDOTSEG][1..] == [];
    assert Run(stack, [seg, DOTDOTSEG]) == Run(stack + [seg], [DOTDOTSEG]);
    assert Run(stack + [seg], [DOTDOTSEG]) == Run(Pop(stack + [seg]), []);
    assert Pop(stack + [seg]) == stack;
  }

  /** The segments of a text with one or two inner segments singled out. */
  lemma SplitMiddle(a: bytes, seg: bytes, b: bytes)
    requires SLASH !in seg
    ensures Split(a + [SLASH] + seg + [SLASH] + b) == Split(a) + [seg] + Split(b)
  {
    hide Split;
    assert a + [SLASH] + seg + [SLASH] + b == a + [SLASH] + (seg + [SLASH] + b);
    SplitConcat(a, seg + [SLASH] + b);
    SplitConcat(seg, b);
    SplitNoSlash(seg);
    assert Split(a) + ([seg] + Split(b)) == Split(a) + [seg] + Split(b);
  }

  lemma SplitClimb(a: bytes, seg: bytes, b: bytes)
    requires SLASH !in seg
    ensures Split(a + [SLASH] + seg + SLASHDOTDOTSLASH + b) == Split(a) + [seg, DOTDOTSEG] + Split(b)
  {
    hide Split;
    var p := a + [SLASH] + seg;
    assert p + SLASHDOTDOTSLASH + b == p + [SLASH] + DOTDOTSEG + [SLASH] + b;
    SplitMiddle(p, DOTDOTSEG, b);
    SplitConcat(a, seg);
    SplitNoSlash(seg);
    assert (Split(a) + [seg]) + [DOTDOTSEG] == Split(a) + [seg, DOTDOTSEG];
  }

  // ---- What a resolved path looks like ----------------------------------------------------

  predicate EndsWith(s: bytes, t: bytes) {
    |t| <= |s| && s[|s| - |t|..] == t
  }

  ghost predicate Normalized(p: bytes) {
    && Rooted(p)
    && !Occurs(p, SLASHSLASH)
    && !Occurs(p, SLASHDOTSLASH)
    && !Occurs(p, SLASHDOTDOTSLASH)
    && !EndsWith(p, SLASHDOTDOT)
  }

  /** An inner segment stands between two slashes. */
  lemma {:induction false} InnerOccurs(segs: segments, i: int)
    requires 0 < i < |segs| - 1
    ensures Occurs(Join(segs), [SLASH] + segs[i] + [SLASH])
  {
    var a, b := segs[..i], segs[i + 1..];
    assert segs == a + ([segs[i]] + b);
    JoinConcat(a, [segs[i]] + b);
    JoinConcat([segs[i]], b);
    var pat := [SLASH] + segs[i] + [SLASH];
    assert Join(segs) == Join(a) + pat + Join(b);
    assert At(Join(segs), |Join(a)|, pat);
  }

  /** Conversely, a slash-free text between two slashes is an inner segment. */
  lemma {:induction false} OccursInner(p: bytes, seg: bytes)
    requires Rooted(p) && SLASH !in seg && Occurs(p, [SLASH] + seg + [SLASH])
    ensures |Split(p)| >= 2 && seg in Inner(Split(p))
  {
    RootedSegments(p);
    var pat := [SLASH] + seg + [SLASH];
    var i :| At(p, i, pat);
    var a, b := p[..i], p[i + |pat|..];
    assert p == a + [SLASH] + (seg + [SLASH] + b) by {
      assert p == a + p[i..i + |pat|] + b;
    }
    SplitConcat(a, seg + [SLASH] + b);
    SplitConcat(seg, b);
    SplitNoSlash(seg);
    assert Split(p) == Split(a) + [seg] + Split(b);
    assert Inner(Split(p))[|Split(a)| - 1] == seg;
  }

  lemma {:induction false} LastSegment(p: bytes, seg: bytes)
    requires Rooted(p) && SLASH !in seg
    ensures EndsWith(p, [SLASH] + seg) <==> Last(Split(p)) == seg
  {
    RootedSegments(p);
    var segs := Split(p);
    JoinSplit(p);
    JoinConcat(segs[..|segs| - 1], [Last(segs)]);
    assert segs == segs[..|segs| - 1] + [Last(segs)];
    var front := Join(segs[..|segs| - 1]);
    assert p == front + [SLASH] + Last(segs);
    if Last(segs) == seg {
      assert p[|p| - |[SLASH] + seg|..] == [SLASH] + seg;
    }
    if EndsWith(p, [SLASH] + seg) {
      var a := p[..|p| - |seg| - 1];
      assert p == a + [SLASH] + seg;
      SplitConcat(a, seg);
      SplitNoSlash(seg);
    }
  }

  /** The byte patterns say the same as the segments. */
  lemma {:induction false} InnerOrdinary(p: bytes)
    requires Rooted(p)
    ensures |Split(p)| >= 2
    ensures !Occurs(p, SLASHSLASH) && !Occurs(p, SLASHDOTSLASH) && !Occurs(p, SLASHDOTDOTSLASH)
       <==> AllOrdinary(Inner(Split(p)))
  {
    RootedSegments(p);
    JoinSplit(p);
    var inner := Inner(Split(p));
    assert [SLASH] + [] + [SLASH] == SLASHSLASH;
    assert [SLASH] + DOTSEG + [SLASH] == SLASHDOTSLASH;
    assert [SLASH] + DOTDOTSEG + [SLASH] == SLASHDOTDOTSLASH;
    if AllOrdinary(inner) {
      if Occurs(p, SLASHSLASH) { OccursInner(p, []); }
      if Occurs(p, SLASHDOTSLASH) { OccursInner(p, DOTSEG); }
      if Occurs(p, SLASHDOTDOTSLASH) { OccursInner(p, DOTDOTSEG); }
    } else {
      var i :| 0 <= i < |inner| && !Ordinary(inner[i]);
      InnerOccurs(Split(p), i + 1);
      assert inner[i] == Split(p)[i + 1];
    }
  }

  lemma {:induction false} NormalizedSegments(p: bytes)
    requires Rooted(p)
    ensures |Split(p)| >= 2
    ensures Normalized(p) <==> AllOrdinary(Inner(Split(p))) && Last(Split(p)) != DOTDOTSEG
  {
    InnerOrdinary(p);
    assert [SLASH] + DOTDOTSEG == SLASHDOTDOT;
    LastSegment(p, DOTDOTSEG);
  }

  /** The segments of a finished path. */
  lemma {:induction false} FinishSegments(stack: segments, last: bytes)
    requires AllOrdinary(stack) && SlashFree(stack) && SLASH !in last
    ensures var p := Finish(stack, last);
            && Rooted(p)
            && Split(p) == [[]] + (if last == DOTDOTSEG then Pop(stack) + [[]] else stack + [last])
  {
    var st, l := if last == DOTDOTSEG then Pop(stack) else stack, if last == DOTDOTSEG then [] else last;
    SplitJoin([[]] + st + [l]);
    JoinConcat([[]], st + [l]);
    assert [[]] + (st + [l]) == [[]] + st + [l];
  }

  /** Resolving always gives a normalized path. */
  lemma {:induction false} ResolveNormalizes(p: bytes)
    requires Rooted(p)
    ensures Normalized(Resolve(p))
  {
    RootedSegments(p);
    JoinSplit(p);
    var segs := Split(p);
    RunOrdinary([], Inner(segs));
    var stack := Run([], Inner(segs));
    FinishSegments(stack, Last(segs));
    var r := Resolve(p);
    NormalizedSegments(r);
    if Last(segs) == DOTDOTSEG {
      assert Split(r) == [[]] + (Pop(stack) + [[]]);
      assert Inner(Split(r)) == Pop(stack) && Last(Split(r)) == [];
    } else {
      assert Split(r) == [[]] + (stack + [Last(segs)]);
      assert Inner(Split(r)) == stack && Last(Split(r)) == Last(segs);
    }
  }

  /** The fixed points of resolution are exactly the normalized paths. */
  lemma {:induction false} ResolveFixpoint(p: bytes)
    requires Rooted(p)
    ensures Normalized(p) <==> Resolve(p) == p
  {
    if Normalized(p) {
      NormalizedSegments(p);
      RootedSegments(p);
      RunOfOrdinary([], Inner(Split(p)));
      JoinSplit(p);
      assert Run([], Inner(Split(p))) == Inner(Split(p));
    }
    ResolveNormalizes(p);
  }

  /** A second normalization changes nothing. */
  lemma {:induction false} ResolveIdempotent(p: bytes)
    requires Rooted(p)
    ensures Rooted(Resolve(p)) && Resolve(Resolve(p)) == Resolve(p)
  {
    ResolveNormalizes(p);
    ResolveFixpoint(Resolve(p));
  }
}
