/** normalizePath: a decoded path is rewritten in place until it is its resolution. */
module Path {
  import opened Bytes
  import opened Escape
  import opened Segments

  /** The path as the passes below receive it: a leading slash and the decoded bytes. */
  function DecodedPath(src: bytes): (p: bytes)
    ensures Rooted(p)
  {
    if src == [] || src[0] != SLASH then [SLASH] + Unescape(src, false)
    else
      assert src[0] == SLASH;
      Unescape(src, false)
  }

  /** The slash is put in front of what there is; without percent signs nothing else changes. */
  lemma DecodedPathIs(src: bytes)
    ensures src == [] || src[0] != 47 ==> DecodedPath(src) == DecodedPath([47] + src)
    ensures 37 !in src ==> DecodedPath(src) == if src != [] && src[0] == 47 then src else [47] + src
  {
    assert ([SLASH] + src)[1..] == src;
    if 37 !in src {
      UnescapePlain(src, false);
    }
  }

  // ---- What one rewriting step keeps ------------------------------------------------------

  function Cut(s: bytes, to: nat, from: nat): bytes
    requires to <= from <= |s|
  {
    s[..to] + s[from..]
  }

  /** Dropping an empty or "." segment between two slashes. */
  lemma ResolveDrop(a: bytes, seg: bytes, b: bytes)
    requires a == [] || Rooted(a)
    requires seg == [] || seg == DOTSEG
    ensures Rooted(a + [SLASH] + seg + [SLASH] + b) && Rooted(a + [SLASH] + b)
    ensures Resolve(a + [SLASH] + seg + [SLASH] + b) == Resolve(a + [SLASH] + b)
  {
    SplitMiddle(a, seg, b);
    SplitConcat(a, b);
    RunDrop(Run([], Split(a)[1..]), seg);
    Elide(Split(a), [seg], Split(b));
  }

  /** ".." after an ordinary segment takes that segment away. */
  lemma ResolveClimb(a: bytes, seg: bytes, b: bytes)
    requires a == [] || Rooted(a)
    requires SLASH !in seg && Ordinary(seg)
    ensures Rooted(a + [SLASH] + seg + SLASHDOTDOTSLASH + b) && Rooted(a + [SLASH] + b)
    ensures Resolve(a + [SLASH] + seg + SLASHDOTDOTSLASH + b) == Resolve(a + [SLASH] + b)
  {
    SplitClimb(a, seg, b);
    SplitConcat(a, b);
    RunClimb(Run([], Split(a)[1..]), seg);
    Elide(Split(a), [seg, DOTDOTSEG], Split(b));
  }

  /** ".." at the root changes nothing. */
  lemma ResolveClimbRoot(b: bytes)
    ensures Resolve(SLASHDOTDOTSLASH + b) == Resolve([SLASH] + b)
  {
    assert SLASHDOTDOTSLASH + b == [] + [SLASH] + DOTDOTSEG + [SLASH] + b;
    assert [SLASH] + b == [] + [SLASH] + b;
    SplitMiddle([], DOTDOTSEG, b);
    SplitConcat([], b);
    assert Run(Run([], Split([])[1..]), [DOTDOTSEG]) == Run([], Split([])[1..]) by {
      assert [DOTDOTSEG][1..] == [];
    }
    Elide(Split([]), [DOTDOTSEG], Split(b));
  }

  // ---- The passes -------------------------------------------------------------------------

  /** The text with the occurrence of "//" at `i` made one slash. */
  lemma CollapseStep(s: bytes, i: nat)
    requires Rooted(s) && At(s, i, SLASHSLASH)
    ensures var t := Cut(s, i, i + 1); Rooted(t) && Resolve(t) == Resolve(s)
  {
    var a, b := s[..i], s[i + 2..];
    assert s == a + [SLASH] + [] + [SLASH] + b;
    assert Cut(s, i, i + 1) == a + [SLASH] + b;
    ResolveDrop(a, [], b);
  }

  lemma DotStep(s: bytes, i: nat)
    requires Rooted(s) && At(s, i, SLASHDOTSLASH)
    ensures var t := Cut(s, i, i + 2); Rooted(t) && Resolve(t) == Resolve(s)
  {
    var a, b := s[..i], s[i + 3..];
    assert s == a + [SLASH] + DOTSEG + [SLASH] + b by {
      assert s == a + s[i..i + 3] + b;
    }
    assert Cut(s, i, i + 2) == a + [SLASH] + b;
    ResolveDrop(a, DOTSEG, b);
  }

  /** Cutting a text from one slash to another makes no new "//". */
  lemma CutSlashes(s: bytes, to: nat, from: nat)
    requires to <= from < |s| && s[to] == SLASH && s[from] == SLASH
    ensures Occurs(Cut(s, to, from), SLASHSLASH) ==> Occurs(s, SLASHSLASH)
  {
    var t := Cut(s, to, from);
    if i :| At(t, i, SLASHSLASH) {
      var j := if i + 1 <= to then i else i + (from - to);
      assert t[i..i + 2][0] == t[i] && t[i..i + 2][1] == t[i + 1];
      assert s[j] == SLASH && s[j + 1] == SLASH;
      assert At(s, j, SLASHSLASH);
    }
  }

  /** Nor any new "/./". */
  lemma CutDots(s: bytes, to: nat, from: nat)
    requires to <= from < |s| && s[to] == SLASH && s[from] == SLASH
    ensures Occurs(Cut(s, to, from), SLASHDOTSLASH) ==> Occurs(s, SLASHDOTSLASH)
  {
    var t := Cut(s, to, from);
    if i :| At(t, i, SLASHDOTSLASH) {
      assert t[i..i + 3][0] == t[i] && t[i..i + 3][1] == t[i + 1] && t[i..i + 3][2] == t[i + 2];
      assert t[to] == SLASH && i + 1 != to;
      var j := if i + 2 <= to then i else i + (from - to);
      assert s[j] == SLASH && s[j + 1] == DOT && s[j + 2] == SLASH;
      assert At(s, j, SLASHDOTSLASH);
    }
  }

  /** Where the slash before the segment that ".." removes is. */
  function ClimbTo(s: bytes, n: nat): (nn: nat)
    requires n <= |s|
    ensures nn <= n
  {
    var i := LastIndexByte(s[..n], SLASH);
    if i < 0 then 0 else i
  }

  /** What stands between two slashes is an ordinary segment, or it is one of the patterns. */
  lemma SegmentBefore(s: bytes, nn: nat, n: nat)
    requires nn < n < |s| && s[nn] == SLASH && s[n] == SLASH
    ensures Ordinary(s[nn + 1..n])
         || At(s, nn, SLASHSLASH) || At(s, nn, SLASHDOTSLASH) || At(s, nn, SLASHDOTDOTSLASH)
  {
    var seg := s[nn + 1..n];
    assert s[nn..n + 1] == [SLASH] + seg + [SLASH];
    if !Ordinary(seg) {
      assert At(s, nn, [SLASH] + seg + [SLASH]);
    }
  }

  lemma ClimbCut(s: bytes, n: nat)
    requires At(s, n, SLASHDOTDOTSLASH)
    ensures s == s[..n] + SLASHDOTDOTSLASH + s[n + 4..] && s[n] == SLASH && s[n + 3] == SLASH
  {
    assert s[n..n + 4][0] == s[n] && s[n..n + 4][3] == s[n + 3];
    assert s == s[..n] + s[n..n + 4] + s[n + 4..];
  }

  lemma ClimbSlash(s: bytes, n: nat)
    requires Rooted(s) && n < |s|
    ensures var nn := ClimbTo(s, n); nn <= n && s[nn] == SLASH && (n > 0 ==> nn < n)
  {
    if n > 0 {
      assert s[..n][0] == SLASH;
    }
  }

  lemma ClimbSegment(s: bytes, n: nat)
    requires Rooted(s) && !Occurs(s, SLASHSLASH) && !Occurs(s, SLASHDOTSLASH)
    requires n < |s| && s[n] == SLASH && forall j :: 0 <= j < n ==> !At(s, j, SLASHDOTDOTSLASH)
    ensures n > 0 ==> Ordinary(s[ClimbTo(s, n) + 1..n])
  {
    ClimbSlash(s, n);
    if n > 0 {
      SegmentBefore(s, ClimbTo(s, n), n);
    }
  }

  lemma ClimbResolves(s: bytes, n: nat)
    requires Rooted(s) && 0 < n && n + 4 <= |s| && s == s[..n] + SLASHDOTDOTSLASH + s[n + 4..]
    requires Ordinary(s[ClimbTo(s, n) + 1..n])
    ensures var nn := ClimbTo(s, n);
      nn < n && s[nn] == SLASH && Rooted(s[..nn] + [SLASH] + s[n + 4..])
      && Resolve(s[..nn] + [SLASH] + s[n + 4..]) == Resolve(s)
  {
    hide Resolve, Ordinary;
    var nn, b := ClimbTo(s, n), s[n + 4..];
    assert s[..n][0] == SLASH;
    var a, seg := s[..nn], s[nn + 1..n];
    assert s[..n] == a + [SLASH] + seg;
    assert SLASH !in seg by { assert s[..n][nn + 1..] == seg; }
    ResolveClimb(a, seg, b);
  }

  /** The leftmost "/../", with the slashes and dots before it gone, goes with the segment before it. */
  lemma ClimbStep(s: bytes, n: nat)
    requires Rooted(s) && !Occurs(s, SLASHSLASH) && !Occurs(s, SLASHDOTSLASH)
    requires At(s, n, SLASHDOTDOTSLASH) && forall j :: 0 <= j < n ==> !At(s, j, SLASHDOTDOTSLASH)
    ensures var t := Cut(s, ClimbTo(s, n), n + 3);
            !Occurs(t, SLASHSLASH) && !Occurs(t, SLASHDOTSLASH) && Rooted(t) && Resolve(t) == Resolve(s)
  {
    var nn, b := ClimbTo(s, n), s[n + 4..];
    ClimbCut(s, n);
    ClimbSlash(s, n);
    hide Resolve, Ordinary, Occurs, At;
    ClimbSegment(s, n);
    CutSlashes(s, nn, n + 3);
    CutDots(s, nn, n + 3);
    assert Cut(s, nn, n + 3) == s[..nn] + [SLASH] + b;
    if n == 0 {
      assert s == SLASHDOTDOTSLASH + b && s[..nn] + [SLASH] + b == [SLASH] + b;
      ResolveClimbRoot(b);
    } else {
      ClimbResolves(s, n);
    }
  }

  lemma RootPath()
    ensures PathOf([], []) == [SLASH]
  {
    var root: segments := [[]];
    JoinConcat(root, root);
    assert root + [] + root == root + root;
  }

  lemma ClimbedPath(a: bytes, seg: bytes)
    requires a == [] || Rooted(a)
    ensures PathOf(Pop((Split(a) + [seg])[1..]), []) == a + [SLASH]
  {
    var segs := Split(a);
    assert segs[0] == [] by {
      if a != [] { RootedSegments(a); }
    }
    assert Pop((segs + [seg])[1..]) == segs[1..];
    assert [[]] + segs[1..] == segs;
    JoinConcat(segs, [[]]);
    JoinSplit(a);
  }

  lemma EndCut(s: bytes)
    requires EndsWith(s, SLASHDOTDOT)
    ensures s == s[..|s| - 3] + [SLASH] + DOTDOTSEG
  {
    assert s == s[..|s| - 3] + s[|s| - 3..];
  }

  lemma FinalAtRoot()
    ensures Resolve([SLASH] + DOTDOTSEG) == [SLASH]
  {
    var s := [SLASH] + DOTDOTSEG;
    assert s == [] + [SLASH] + DOTDOTSEG;
    SplitConcat([], DOTDOTSEG);
    SplitNoSlash(DOTDOTSEG);
    assert Split(s) == [[], DOTDOTSEG];
    assert Inner(Split(s)) == [];
    RootPath();
  }

  lemma FinalClimb(p: bytes)
    requires Rooted(p) && |Split(p + [SLASH] + DOTDOTSEG)| >= 2
    requires AllOrdinary(Inner(Split(p + [SLASH] + DOTDOTSEG)))
    ensures Resolve(p + [SLASH] + DOTDOTSEG) == p[..ClimbTo(p, |p|)] + [SLASH]
  {
    var s, nn := p + [SLASH] + DOTDOTSEG, ClimbTo(p, |p|);
    assert p[..|p|] == p;
    var a, seg := p[..nn], p[nn + 1..];
    assert p == a + [SLASH] + seg;
    SplitConcat(p, DOTDOTSEG);
    SplitNoSlash(DOTDOTSEG);
    SplitConcat(a, seg);
    SplitNoSlash(seg);
    ClimbedPath(a, seg);
    var inner := (Split(a) + [seg])[1..];
    InnerConcat(Split(p), [DOTDOTSEG]);
    assert Inner(Split(s)) == inner && Last(Split(s)) == DOTDOTSEG;
    RunOfOrdinary([], inner);
    assert [] + inner == inner;
  }

  /** Dropping a final "/.." with the segment before it, once no inner ".." is left, is all that remains. */
  lemma FinalStep(s: bytes)
    requires Rooted(s) && !Occurs(s, SLASHSLASH) && !Occurs(s, SLASHDOTSLASH) && !Occurs(s, SLASHDOTDOTSLASH)
    requires EndsWith(s, SLASHDOTDOT)
    ensures Resolve(s) == s[..ClimbTo(s, |s| - 3)] + [SLASH]
  {
    hide Occurs, At, EndsWith, Split, Resolve, Run, Inner, LastIndexByte;
    EndCut(s);
    InnerOrdinary(s);
    var p := s[..|s| - 3];
    if p == [] {
      assert s == [SLASH] + DOTDOTSEG;
      FinalAtRoot();
      assert s[..ClimbTo(s, |s| - 3)] == [];
    } else {
      assert p[0] == s[0] && p[..|p|] == p;
      FinalClimb(p);
      assert s[..ClimbTo(s, |s| - 3)] == p[..ClimbTo(p, |p|)];
    }
  }

  // ---- The passes in the buffer -----------------------------------------------------------

  /** A text at some point of its rewriting: it fills the slice and still means `r`. */
  ghost predicate Rewriting(buf: array<byte>, n: nat, t: bytes, r: bytes)
    reads buf
  {
    |t| == n && Holds(buf, 0, t) && Rooted(t) && Resolve(t) == r
  }

  ghost predicate CleanBelow(t: bytes, pat: bytes, lo: nat) {
    forall j :: 0 <= j < lo ==> !At(t, j, pat)
  }

  /** Collapsing an occurrence of "//" that has none before it leaves none before it. */
  lemma CollapseClean(t: bytes, lo: nat)
    requires At(t, lo, SLASHSLASH) && CleanBelow(t, SLASHSLASH, lo)
    ensures CleanBelow(Cut(t, lo, lo + 1), SLASHSLASH, lo)
  {
    var u := Cut(t, lo, lo + 1);
    assert t[lo..lo + 2][0] == t[lo] && t[lo..lo + 2][1] == t[lo + 1];
    forall j | 0 <= j < lo ensures !At(u, j, SLASHSLASH) {
      assert !At(t, j, SLASHSLASH) && u[lo] == t[lo];
      assert u[j..j + 2] == t[j..j + 2];
    }
  }

  /** What the next search in the rest of the text tells about the whole text. */
  lemma SearchFrom(t: bytes, lo: nat, pat: bytes)
    requires lo <= |t| && CleanBelow(t, pat, lo)
    ensures var i := IndexOf(t[lo..], pat);
            if i < 0 then !Occurs(t, pat) else At(t, lo + i, pat) && CleanBelow(t, pat, lo + i)
  {
    var i := IndexOf(t[lo..], pat);
    forall j | 0 <= j && (i < 0 || j < lo + i) ensures !At(t, j, pat) {
      if j >= lo { AtSuffix(t, lo, j, pat); }
    }
    if i >= 0 { AtSuffix(t, lo, lo + i, pat); }
  }

  method CollapseSlashes(buf: array<byte>, n: nat, ghost s: bytes, ghost r: bytes) returns (m: nat, ghost t: bytes)
    requires Rewriting(buf, n, s, r)
    modifies buf
    ensures Rewriting(buf, m, t, r) && !Occurs(t, SLASHSLASH)
  {
    var lo := 0;
    m, t := n, s;
    while true
      invariant lo <= m && Rewriting(buf, m, t, r) && CleanBelow(t, SLASHSLASH, lo)
      decreases m
    {
      HoldsRange(buf, t, lo);
      SearchFrom(t, lo, SLASHSLASH);
      var i := IndexOf(buf[lo..m], SLASHSLASH);
      if i < 0 {
        break;
      }
      lo := lo + i;
      CollapseStep(t, lo);
      CollapseClean(t, lo);
      DeleteRange(buf, lo, lo + 1, m, t);
      m, t := m - 1, Cut(t, lo, lo + 1);
    }
  }

  method RemoveDots(buf: array<byte>, n: nat, ghost s: bytes, ghost r: bytes) returns (m: nat, ghost t: bytes)
    requires Rewriting(buf, n, s, r) && !Occurs(s, SLASHSLASH)
    modifies buf
    ensures Rewriting(buf, m, t, r) && !Occurs(t, SLASHSLASH) && !Occurs(t, SLASHDOTSLASH)
  {
    m, t := n, s;
    while true
      invariant Rewriting(buf, m, t, r) && !Occurs(t, SLASHSLASH)
      decreases m
    {
      HoldsRange(buf, t, 0);
      var i := IndexOf(buf[0..m], SLASHDOTSLASH);
      if i < 0 {
        break;
      }
      DotStep(t, i);
      assert t[i..i + 3][0] == t[i] && t[i..i + 3][2] == t[i + 2];
      CutSlashes(t, i, i + 2);
      DeleteRange(buf, i, i + 2, m, t);
      m, t := m - 2, Cut(t, i, i + 2);
    }
  }

  method FindClimb(buf: array<byte>, n: nat, ghost t: bytes) returns (nn: nat)
    requires Holds(buf, 0, t) && n <= |t|
    ensures nn == ClimbTo(t, n)
  {
    assert buf[..n] == t[..n];
    var i := LastIndexByte(buf[..n], SLASH);
    nn := if i < 0 then 0 else i;
  }

  method RemoveDotDots(buf: array<byte>, n: nat, ghost s: bytes, ghost r: bytes) returns (m: nat, ghost t: bytes)
    requires Rewriting(buf, n, s, r) && !Occurs(s, SLASHSLASH) && !Occurs(s, SLASHDOTSLASH)
    modifies buf
    ensures Rewriting(buf, m, t, r)
    ensures !Occurs(t, SLASHSLASH) && !Occurs(t, SLASHDOTSLASH) && !Occurs(t, SLASHDOTDOTSLASH)
  {
    m, t := n, s;
    while true
      invariant Rewriting(buf, m, t, r) && !Occurs(t, SLASHSLASH) && !Occurs(t, SLASHDOTSLASH)
      decreases m
    {
      HoldsRange(buf, t, 0);
      var i := IndexOf(buf[0..m], SLASHDOTDOTSLASH);
      if i < 0 {
        break;
      }
      ClimbStep(t, i);
      var nn := FindClimb(buf, i, t);
      DeleteRange(buf, nn, i + 3, m, t);
      m, t := m - (i + 3 - nn), Cut(t, nn, i + 3);
    }
  }

  /** The bytes after the passes, the last ".." included. */
  method FinishPath(buf: array<byte>, n: nat, ghost s: bytes, ghost r: bytes) returns (path: bytes)
    requires Rewriting(buf, n, s, r)
    requires !Occurs(s, SLASHSLASH) && !Occurs(s, SLASHDOTSLASH) && !Occurs(s, SLASHDOTDOTSLASH)
    ensures path == r
  {
    HoldsRange(buf, s, 0);
    var b := buf[0..n];
    var i := LastIndexOf(b, SLASHDOTDOT);
    if i >= 0 && i + |SLASHDOTDOT| == |b| {
      FinalStep(s);
      var nn := LastIndexByte(b[..i], SLASH);
      if nn < 0 {
        return [SLASH];
      }
      return b[..nn + 1];
    }
    if EndsWith(s, SLASHDOTDOT) {
      assert At(s, |s| - 3, SLASHDOTDOT);
    }
    ResolveFixpoint(s);
    return b;
  }

  /** uri.go's normalizePath on Unix, whatever the buffer it reuses held before. */
  method NormalizePath(src: bytes) returns (path: bytes)
    ensures path == Resolve(DecodedPath(src))
    ensures src == [] || src[0] != 47 ==> path == Resolve(DecodedPath([47] + src))
    ensures 37 !in src ==> path == Resolve(if src != [] && src[0] == 47 then src else [47] + src)
  {
    DecodedPathIs(src);
    var dst: bytes := [];
    if src == [] || src[0] != SLASH {
      dst := [SLASH];
    }
    dst := DecodeAppend(dst, src, false);
    var buf := new byte[|dst|](i requires 0 <= i < |dst| => dst[i]);
    ghost var t, r := DecodedPath(src), Resolve(DecodedPath(src));
    assert dst == t;
    var n := |dst|;
    n, t := CollapseSlashes(buf, n, t, r);
    n, t := RemoveDots(buf, n, t, r);
    n, t := RemoveDotDots(buf, n, t, r);
    path := FinishPath(buf, n, t, r);
  }
}
