/** Byte strings and the searches of Go's `bytes` package that the server relies on. */
module Bytes {

  type byte = b: int | 0 <= b < 256
  type bytes = seq<byte>

  const TAB: byte := 9
  const LF: byte := 10
  const CR: byte := 13
  const SPACE: byte := 32
  const HASH: byte := 35
  const PERCENT: byte := 37
  const AMP: byte := 38
  const STAR: byte := 42
  const PLUS: byte := 43
  const DASH: byte := 45
  const DOT: byte := 46
  const SLASH: byte := 47
  const COLON: byte := 58
  const EQUALS: byte := 61
  const QUESTION: byte := 63
  const AT: byte := 64

  const CRLF: bytes := [CR, LF]

  lemma Regroup(a: bytes, b: bytes, c: bytes)
    ensures (a + b) + c == a + (b + c)
  {
  }

  /** `pat` occurs in `s` at position `i`. */
  predicate At(s: bytes, i: int, pat: bytes) {
    0 <= i && i + |pat| <= |s| && s[i..i + |pat|] == pat
  }

  ghost predicate Occurs(s: bytes, pat: bytes) {
    exists i :: At(s, i, pat)
  }

  /** bytes.IndexByte: the first position of `c`, or -1. */
  function IndexByte(s: bytes, c: byte): (i: int)
    ensures -1 <= i < |s|
    ensures i >= 0 ==> s[i] == c
  {
    if s == [] then -1
    else if s[0] == c then 0
    else
      var i := IndexByte(s[1..], c);
      if i < 0 then -1 else i + 1
  }

  lemma {:induction false} IndexByteFirst(s: bytes, c: byte)
    ensures var i := IndexByte(s, c); if i >= 0 then c !in s[..i] else c !in s
  {
    if s != [] && s[0] != c {
      IndexByteFirst(s[1..], c);
      var i := IndexByte(s, c);
      if i >= 0 {
        assert s[..i] == [s[0]] + s[1..][..i - 1];
      } else {
        assert s == [s[0]] + s[1..];
      }
    }
  }

  /** bytes.LastIndexByte: the last position of `c`, or -1. */
  function LastIndexByte(s: bytes, c: byte): (i: int)
    ensures -1 <= i < |s|
    ensures i >= 0 ==> s[i] == c && c !in s[i + 1..]
    ensures i < 0 ==> c !in s
  {
    if s == [] then -1
    else if s[|s| - 1] == c then |s| - 1
    else
      var t := s[..|s| - 1];
      var i := LastIndexByte(t, c);
      assert s == t + [s[|s| - 1]];
      assert i >= 0 ==> s[i + 1..] == t[i + 1..] + [s[|s| - 1]];
      i
  }

  lemma {:induction false} IndexByteConcat(a: bytes, c: byte, b: bytes)
    requires c !in a
    ensures IndexByte(a + [c] + b, c) == |a|
  {
    var s := a + [c] + b;
    if a != [] {
      assert s[0] == a[0] && s[1..] == a[1..] + [c] + b;
      IndexByteConcat(a[1..], c, b);
    }
  }

  lemma {:induction false} LastIndexByteConcat(a: bytes, c: byte, b: bytes)
    requires c !in b
    ensures LastIndexByte(a + [c] + b, c) == |a|
  {
    var s := a + [c] + b;
    if b != [] {
      var b' := b[..|b| - 1];
      assert s[|s| - 1] == b[|b| - 1] && s[..|s| - 1] == a + [c] + b';
      LastIndexByteConcat(a, c, b');
    }
  }

  lemma FirstIn(a: bytes, c: byte, t: bytes)
    requires c !in a && t != [] && t[0] == c
    ensures IndexByte(a + t, c) == |a| && (a + t)[..|a|] == a && (a + t)[|a| + 1..] == t[1..]
  {
    IndexByteConcat(a, c, t[1..]);
    assert a + [c] + t[1..] == a + t;
  }

  /** The text before the first `c` is determined by the whole. */
  lemma CutAtByte(a: bytes, c: byte, b: bytes, a': bytes, b': bytes)
    requires c !in a && c !in a' && a + [c] + b == a' + [c] + b'
    ensures a == a' && b == b'
  {
    IndexByteConcat(a, c, b);
    IndexByteConcat(a', c, b');
    assert (a + [c] + b)[..|a|] == a && (a' + [c] + b')[..|a|] == a';
    assert (a + [c] + b)[|a| + 1..] == b && (a' + [c] + b')[|a| + 1..] == b';
  }

  /** bytes.Index: the first position of `pat`, or -1. */
  function IndexOf(s: bytes, pat: bytes): (i: int)
    ensures -1 <= i <= |s|
    ensures i >= 0 ==> At(s, i, pat)
    ensures forall j :: 0 <= j && (i < 0 || j < i) ==> !At(s, j, pat)
  {
    IndexFrom(s, pat, 0)
  }

  function IndexFrom(s: bytes, pat: bytes, k: nat): (i: int)
    requires k <= |s|
    ensures i == -1 || k <= i <= |s|
    ensures i >= 0 ==> At(s, i, pat)
    ensures forall j :: k <= j && (i < 0 || j < i) ==> !At(s, j, pat)
    decreases |s| - k
  {
    if At(s, k, pat) then k
    else if k == |s| then -1
    else IndexFrom(s, pat, k + 1)
  }

  /** bytes.LastIndex: the last position of `pat`, or -1. */
  function LastIndexOf(s: bytes, pat: bytes): (i: int)
    ensures -1 <= i <= |s|
    ensures i >= 0 ==> At(s, i, pat)
    ensures forall j :: i < j ==> !At(s, j, pat)
  {
    LastIndexFrom(s, pat, |s|)
  }

  function LastIndexFrom(s: bytes, pat: bytes, k: nat): (i: int)
    requires k <= |s|
    ensures -1 <= i <= k
    ensures i >= 0 ==> At(s, i, pat)
    ensures forall j :: i < j <= k ==> !At(s, j, pat)
  {
    if At(s, k, pat) then k
    else if k == 0 then -1
    else LastIndexFrom(s, pat, k - 1)
  }

  /** Go's copy(buf[to:], buf[from:end]) for to <= from: the bytes move down within one buffer. */
  method CopyDown(buf: array<byte>, to: nat, from: nat, end: nat)
    requires to <= from <= end <= buf.Length
    modifies buf
    ensures forall k :: to <= k < to + (end - from) ==> buf[k] == old(buf[k + (from - to)])
    ensures forall k :: 0 <= k < buf.Length && !(to <= k < to + (end - from)) ==> buf[k] == old(buf[k])
  {
    var i := 0;
    while i < end - from
      invariant 0 <= i <= end - from
      invariant forall k :: to <= k < to + i ==> buf[k] == old(buf[k + (from - to)])
      invariant forall k :: 0 <= k < buf.Length && !(to <= k < to + i) ==> buf[k] == old(buf[k])
    {
      buf[to + i] := buf[from + i];
      i := i + 1;
    }
  }

  /** The slice of `buf` that starts at `at` holds `s`. */
  ghost predicate Holds(buf: array<byte>, at: nat, s: bytes)
    reads buf
  {
    at + |s| <= buf.Length && forall k {:trigger buf[k]} :: at <= k < at + |s| ==> buf[k] == s[k - at]
  }

  lemma HoldsSlice(buf: array<byte>, at: nat, s: bytes)
    requires Holds(buf, at, s)
    ensures buf[at..at + |s|] == s
  {
    assert forall j :: 0 <= j < |s| ==> buf[at..at + |s|][j] == buf[at + j] == s[j];
  }

  lemma HoldsRange(buf: array<byte>, s: bytes, lo: nat)
    requires Holds(buf, 0, s) && lo <= |s|
    ensures buf[lo..|s|] == s[lo..]
  {
    assert forall j :: 0 <= j < |s| - lo ==> buf[lo..|s|][j] == buf[lo + j] == s[lo..][j];
  }

  lemma AtSuffix(s: bytes, lo: nat, j: int, pat: bytes)
    requires lo <= |s| && lo <= j
    ensures At(s[lo..], j - lo, pat) <==> At(s, j, pat)
  {
    if j + |pat| <= |s| {
      assert s[lo..][j - lo..j - lo + |pat|] == s[j..j + |pat|];
    }
  }

  /** Deletes buf[to..from] from the slice buf[..end], as copy followed by reslicing does. */
  method DeleteRange(buf: array<byte>, to: nat, from: nat, end: nat, ghost s: bytes)
    requires to <= from <= end == |s| && Holds(buf, 0, s)
    modifies buf
    ensures Holds(buf, 0, s[..to] + s[from..])
  {
    CopyDown(buf, to, from, end);
  }
}
