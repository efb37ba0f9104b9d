/** Header blocks (section 3.2 of RFC 7230): the line printer, the scanner and its lookahead cache. */
module Header {
  import opened Bytes

  // ---- Keys -------------------------------------------------------------------------------

  function ToUpper(c: byte): byte {
    if 97 <= c <= 122 then c - 32 else c
  }

  function ToLower(c: byte): byte {
    if 65 <= c <= 90 then c + 32 else c
  }

  /** The rest of a key, after its first byte: the byte behind a dash is upper-cased, whatever it is. */
  function NormalRest(s: bytes): (r: bytes)
    ensures |r| == |s|
  {
    if s == [] then []
    else if s[0] == DASH then
      if |s| == 1 then [DASH] else [DASH, ToUpper(s[1])] + NormalRest(s[2..])
    else [ToLower(s[0])] + NormalRest(s[1..])
  }

  function NormalKey(s: bytes, raw: bool): (r: bytes)
    ensures |r| == |s|
  {
    if raw || s == [] then s else [ToUpper(s[0])] + NormalRest(s[1..])
  }

  lemma {:induction false} NormalRestIdempotent(s: bytes)
    ensures NormalRest(NormalRest(s)) == NormalRest(s)
    decreases |s|
  {
    var r := NormalRest(s);
    if |s| >= 2 && s[0] == DASH {
      NormalRestIdempotent(s[2..]);
      assert r[2..] == NormalRest(s[2..]);
    } else if s != [] && s[0] != DASH {
      NormalRestIdempotent(s[1..]);
      assert r[1..] == NormalRest(s[1..]);
    }
  }

  /** A key that was normalized once stays as it is. */
  lemma NormalKeyIdempotent(s: bytes, raw: bool)
    ensures NormalKey(NormalKey(s, raw), raw) == NormalKey(s, raw)
  {
    if !raw && s != [] {
      NormalRestIdempotent(s[1..]);
      assert NormalKey(s, raw)[1..] == NormalRest(s[1..]);
    }
  }

  /** Letter by letter: the first letter of a word in upper case, the others in lower case, other bytes as they are. */
  lemma {:induction false} NormalWord(w: bytes, i: nat)
    requires i < |w| && 45 !in w
    ensures NormalKey(w, false)[i] ==
      if i == 0 && 97 <= w[i] <= 122 then w[i] - 32 else if i > 0 && 65 <= w[i] <= 90 then w[i] + 32 else w[i]
    ensures NormalKey(w, true) == w
  {
    if i > 0 {
      NormalRestAt(w[1..], i - 1);
    }
  }

  lemma {:induction false} NormalRestAt(s: bytes, i: nat)
    requires i < |s| && 45 !in s
    ensures NormalRest(s)[i] == if 65 <= s[i] <= 90 then s[i] + 32 else s[i]
  {
    assert s[0] in s;
    if i > 0 {
      NormalRestAt(s[1..], i - 1);
    }
  }

  /** What stands behind the first word and its dash is normalized like a key of its own. */
  lemma NormalWords(w: bytes, rest: bytes)
    requires w != [] && 45 !in w
    ensures NormalKey(w + [45] + rest, false) == NormalKey(w, false) + [45] + NormalKey(rest, false)
  {
    hide NormalRest, ToUpper;
    var s, c := w + [45] + rest, [ToUpper(w[0])];
    assert s[1..] == w[1..] + [45] + rest;
    NormalRestWords(w[1..], rest);
    var a, b := NormalRest(w[1..]), [45] + NormalKey(rest, false);
    assert NormalRest(s[1..]) == a + b by { assert a + [45] + NormalKey(rest, false) == a + b; }
    assert c + (a + b) == c + a + b;
  }

  lemma {:induction false} NormalRestWords(s: bytes, rest: bytes)
    requires 45 !in s
    ensures NormalRest(s + [45] + rest) == NormalRest(s) + [45] + NormalKey(rest, false)
  {
    var t := s + [45] + rest;
    if s == [] {
      assert t == [45] + rest;
      if rest != [] {
        assert t[2..] == rest[1..];
      }
    } else {
      assert s[0] in s && t[1..] == s[1..] + [45] + rest;
      NormalRestWords(s[1..], rest);
    }
  }

  /** normalizeHeaderKey, in the buffer that the key is a part of. */
  method NormalizeHeaderKey(buf: array<byte>, lo: nat, hi: nat, raw: bool, ghost key: bytes)
    requires lo <= hi <= buf.Length && |key| == hi - lo && Holds(buf, lo, key)
    modifies buf
    ensures Holds(buf, lo, NormalKey(key, raw))
    ensures forall k :: 0 <= k < lo || hi <= k < buf.Length ==> buf[k] == old(buf[k])
  {
    hide NormalRest;
    if raw || lo == hi {
      return;
    }
    ghost var total := NormalKey(key, raw);
    buf[lo] := ToUpper(buf[lo]);
    var i := lo + 1;
    assert total[1..] == NormalRest(key[1..]);
    while i < hi
      invariant lo < i <= hi
      invariant forall k :: 0 <= k < lo || hi <= k < buf.Length ==> buf[k] == old(buf[k])
      invariant forall k {:trigger buf[k]} :: i <= k < hi ==> buf[k] == key[k - lo]
      invariant forall k {:trigger buf[k]} :: lo <= k < i ==> buf[k] == total[k - lo]
      invariant total[i - lo..] == NormalRest(key[i - lo..])
    {
      NormalRestStep(key, total, i - lo);
      if buf[i] == DASH {
        i := i + 1;
        if i < hi {
          buf[i] := ToUpper(buf[i]);
          i := i + 1;
        }
      } else {
        buf[i] := ToLower(buf[i]);
        i := i + 1;
      }
    }
  }

  lemma NormalRestStep(key: bytes, total: bytes, p: nat)
    requires p < |key| == |total| && total[p..] == NormalRest(key[p..])
    ensures key[p] != DASH ==> total[p] == ToLower(key[p]) && total[p + 1..] == NormalRest(key[p + 1..])
    ensures key[p] == DASH ==> total[p] == DASH
    ensures key[p] == DASH && p + 1 < |key| ==>
              total[p + 1] == ToUpper(key[p + 1]) && total[p + 2..] == NormalRest(key[p + 2..])
    ensures key[p] == DASH && p + 1 == |key| ==> total[p + 1..] == NormalRest(key[p + 1..])
  {
    var s, t := key[p..], total[p..];
    assert s[1..] == key[p + 1..] && t[1..] == total[p + 1..];
    assert t[0] == total[p];
    if s[0] == DASH && |s| > 1 {
      assert s[2..] == key[p + 2..] && t[2..] == total[p + 2..];
      assert t[1] == total[p + 1];
    }
  }

  // ---- What one line of a block means -----------------------------------------------------

  datatype ScanError = NoError | NeedMore | InvalidName

  datatype Scan =
    | EndOfBlock(len: nat)                              // the empty line
    | Bad(err: ScanError)
    | Folded                                            // the value goes on in the next line
    | Field(key: bytes, value: bytes, len: nat)

  function Spaces(b: bytes): (n: nat)
    ensures n <= |b|
  {
    if b != [] && b[0] == SPACE then 1 + Spaces(b[1..]) else 0
  }

  function TrimSpaces(v: bytes): (r: bytes)
    ensures r <= v
  {
    if v != [] && v[|v| - 1] == SPACE then TrimSpaces(v[..|v| - 1]) else v
  }

  /** A line's value: one carriage return and then all spaces are taken off its end. */
  function TrimEnd(v: bytes): (r: bytes)
    ensures r <= v
  {
    TrimSpaces(if v != [] && v[|v| - 1] == CR then v[..|v| - 1] else v)
  }

  /** The length of the line at the front of b when it starts with a blank; -1 when there is no such whole line. */
  function BlankLine(b: bytes): (d: int)
    ensures -1 <= d < |b|
  {
    if b != [] && (b[0] == SPACE || b[0] == TAB) then IndexByte(b, LF) else -1
  }

  /** Does a value go on in b? Not when that line has a colon: then it is a line of its own. */
  predicate GoesOn(b: bytes) {
    BlankLine(b) > 0 && COLON !in b[..BlankLine(b)]
  }

  /** The length of an empty line at the front of b, or 0. */
  function EmptyLine(b: bytes): (n: nat)
    ensures n <= |b|
  {
    if |b| >= 2 && b[0] == CR && b[1] == LF then 2
    else if |b| >= 1 && b[0] == LF then 1
    else 0
  }

  /** What stands at the front of b, found by plain searching. */
  function ScanLine(b: bytes, raw: bool): Scan {
    if EmptyLine(b) > 0 then EndOfBlock(EmptyLine(b))
    else
      var n, x := IndexByte(b, COLON), IndexByte(b, LF);
      if x < 0 then Bad(NeedMore)
      else if x < n then Bad(InvalidName)
      else if n < 0 then Bad(NeedMore)
      else
        var m := n + 1 + Spaces(b[n + 1..]);
        var r := b[m..];
        var y := IndexByte(r, LF);
        if y < 0 then Bad(NeedMore)
        else if GoesOn(r[y + 1..]) then Folded
        else Field(NormalKey(b[..n], raw), TrimEnd(r[..y]), m + (y + 1))
  }

  /** A line whose key does not end as it should. */
  lemma ScanWithoutKey(b: bytes, raw: bool)
    requires EmptyLine(b) == 0 && !(0 <= IndexByte(b, COLON) < IndexByte(b, LF))
    ensures var n, x := IndexByte(b, COLON), IndexByte(b, LF);
            ScanLine(b, raw) == Bad(if 0 <= x < n then InvalidName else NeedMore)
  {
    hide GoesOn, TrimEnd, NormalKey, Spaces, IndexByte, EmptyLine;
    ColonNotLineEnd(b);
  }

  /** A line with a key of n bytes, m bytes before its value. */
  lemma ScanWithKey(b: bytes, raw: bool, n: nat, m: nat, r: bytes)
    requires EmptyLine(b) == 0 && n == IndexByte(b, COLON) < IndexByte(b, LF)
    requires m == n + 1 + Spaces(b[n + 1..]) && r == b[m..]
    ensures var y := IndexByte(r, LF);
            ScanLine(b, raw) == if y < 0 then Bad(NeedMore)
                                else if GoesOn(r[y + 1..]) then Folded
                                else Field(NormalKey(b[..n], raw), TrimEnd(r[..y]), m + (y + 1))
  {
    hide GoesOn, TrimEnd, NormalKey, Spaces, IndexByte, EmptyLine;
  }

  // ---- The scanner ------------------------------------------------------------------------

  /** What the scanner remembers about the line it will scan next: where its colon and its line end are. */
  ghost predicate CacheOk(b: bytes, nextColon: int, nextNewLine: int) {
    if nextColon < 0 then nextColon == -1 && nextNewLine < 0
    else nextColon == IndexByte(b, COLON) && nextNewLine >= 0 && IndexByte(b, LF) == nextColon + 1 + nextNewLine
  }

  /** The first occurrence behind a prefix without one. */
  lemma IndexBehind(b: bytes, m: nat, c: byte)
    requires m <= |b| && c !in b[..m]
    ensures var i, j := IndexByte(b, c), IndexByte(b[m..], c); if j < 0 then i < 0 else i == m + j
  {
    var j := IndexByte(b[m..], c);
    IndexByteFirst(b[m..], c);
    IndexByteFirst(b, c);
    if j >= 0 {
      assert b[..m + j] == b[..m] + b[m..][..j];
      FirstByte(b, c, m + j);
    } else {
      assert b == b[..m] + b[m..];
    }
  }

  lemma FirstByte(b: bytes, c: byte, i: nat)
    requires i < |b| && b[i] == c && c !in b[..i]
    ensures IndexByte(b, c) == i
  {
    assert b == b[..i] + [c] + b[i + 1..];
    IndexByteConcat(b[..i], c, b[i + 1..]);
  }

  lemma {:induction false} SpacesCount(b: bytes, k: nat)
    requires k <= |b| && (forall i :: 0 <= i < k ==> b[i] == SPACE) && (k < |b| ==> b[k] != SPACE)
    ensures Spaces(b) == k
  {
    if k > 0 {
      SpacesCount(b[1..], k - 1);
    }
  }

  /** What the lookahead into the next line remembers is right. */
  lemma LookaheadCache(b: bytes)
    requires BlankLine(b) > 0 && COLON in b[..BlankLine(b)]
    ensures var d := BlankLine(b); var c := IndexByte(b[..d], COLON);
            c >= 0 && CacheOk(b, c, d - c - 1)
  {
    var d := BlankLine(b);
    var c := IndexByte(b[..d], COLON);
    IndexByteFirst(b[..d], COLON);
    assert b[..d][..c] == b[..c];
    FirstByte(b, COLON, c);
  }

  lemma {:induction false} SpacesAreSpaces(b: bytes)
    ensures forall i :: 0 <= i < Spaces(b) ==> b[i] == SPACE
  {
    if b != [] && b[0] == SPACE {
      SpacesAreSpaces(b[1..]);
    }
  }

  /** The line end stands behind the colon and the spaces after it. */
  lemma LineEndBehind(b: bytes, c: nat, m: nat)
    requires c == IndexByte(b, COLON) < IndexByte(b, LF)
    requires m == c + 1 + Spaces(b[c + 1..])
    ensures m <= IndexByte(b, LF) && IndexByte(b[m..], LF) == IndexByte(b, LF) - m
  {
    var x, t := IndexByte(b, LF), b[c + 1..];
    SpacesAreSpaces(t);
    IndexByteFirst(b, LF);
    assert t[x - c - 1] == LF;
    forall i | 0 <= i < m ensures b[i] != LF {
      if i < x { assert b[i] == b[..x][i]; }
    }
    IndexBehind(b, m, LF);
  }

  /** What line ends and missing parts come to: CR LF or a bare LF ends the block, a name needs its colon. */
  lemma ScanEnds(b: bytes, name: bytes, rest: bytes, raw: bool)
    ensures ScanLine([13, 10] + rest, raw) == EndOfBlock(2) && ScanLine([10] + rest, raw) == EndOfBlock(1)
    ensures 10 !in b ==> ScanLine(b, raw) == Bad(NeedMore)
    ensures 58 !in b && !([13, 10] <= b) && !([10] <= b) ==> ScanLine(b, raw) == Bad(NeedMore)
    ensures 58 !in name && 10 !in name && name != [] && name != [13] && 58 in rest ==>
              ScanLine(name + [10] + rest, raw) == Bad(InvalidName)
  {
    hide IndexByte, GoesOn;
    NotThere(b, LF);
    NotThere(b, COLON);
    var s := name + [10] + rest;
    if 58 !in name && 10 !in name && name != [] && name != [13] && 58 in rest {
      IndexByteConcat(name, LF, rest);
      IndexBehind(s, |name| + 1, COLON) by {
        assert s[..|name| + 1] == name + [10];
      }
      assert s[|name| + 1..] == rest;
      IndexByteFirst(rest, COLON);
    }
  }

  lemma NotThere(s: bytes, c: byte)
    ensures c !in s ==> IndexByte(s, c) < 0
    ensures [13, 10] <= s ==> s[0] == 13 && s[1] == 10
    ensures [10] <= s ==> s[0] == 10
  {
  }

  class HeaderScanner {
    const buf: array<byte>
    var pos: nat                 // s.b is buf[pos..]
    var key: bytes
    var value: bytes
    var err: ScanError
    var hLen: nat
    const raw: bool              // disableNormalizing
    var nextColon: int
    var nextNewLine: int
    var initialized: bool

    ghost predicate Valid()
      reads this, buf
    {
      && pos <= buf.Length
      && (initialized ==> CacheOk(buf[pos..], nextColon, nextNewLine))
    }

    constructor (buf: array<byte>, raw: bool)
      ensures Valid() && this.buf == buf && this.raw == raw && pos == 0 && hLen == 0 && err == NoError
    {
      this.buf, this.raw, pos, hLen, err, initialized := buf, raw, 0, 0, NoError, false;
      key, value, nextColon, nextNewLine := [], [], 0, 0;
    }

    /** Where the key ends: the remembered colon, or a search that no line end may come before. */
    method FindColon(ghost b: bytes) returns (n: int)
      requires Valid() && initialized && b == buf[pos..]
      modifies this`nextColon, this`err
      ensures var c, x := IndexByte(b, COLON), IndexByte(b, LF);
              if x < 0 then n == -1 && err == NeedMore
              else if x < c then n == -1 && err == InvalidName
              else if c < 0 then n == -1 && err == NeedMore
              else n == c && err == old(err)
      ensures nextColon == -1
    {
      if nextColon >= 0 {
        n := nextColon;
        nextColon := -1;
        return;
      }
      n := IndexByte(buf[pos..], COLON);
      var x := IndexByte(buf[pos..], LF);
      if x < 0 {
        err := NeedMore;
        return -1;
      }
      if x < n {
        err := InvalidName;
        return -1;
      }
      if n < 0 {
        err := NeedMore;
        return -1;
      }
    }

    /** The spaces behind the colon; the remembered line end comes nearer with each. */
    method SkipSpaces(from: nat, ghost r: bytes) returns (n: nat)
      requires pos + from <= buf.Length && r == buf[pos + from..]
      modifies this`nextNewLine
      ensures n == from + Spaces(r)
      ensures nextNewLine == old(nextNewLine) - (n - from)
    {
      n := from;
      while pos + n < buf.Length && buf[pos + n] == SPACE
        invariant from <= n && pos + n <= buf.Length
        invariant forall k {:trigger buf[k]} :: pos + from <= k < pos + n ==> buf[k] == SPACE
        invariant nextNewLine == old(nextNewLine) - (n - from)
      {
        n := n + 1;
        nextNewLine := nextNewLine - 1;
      }
      assert forall i :: 0 <= i < n - from ==> r[i] == buf[pos + from + i];
      SpacesCount(r, n - from);
    }

    /** Where the line ends: as remembered, or by searching. */
    method FindNewLine() returns (n: int)
      requires pos <= buf.Length
      requires nextNewLine >= 0 ==> nextNewLine == IndexByte(buf[pos..], LF)
      modifies this`nextNewLine
      ensures n == IndexByte(buf[pos..], LF) && nextNewLine < 0
    {
      if nextNewLine >= 0 {
        n := nextNewLine;
        nextNewLine := -1;
      } else {
        n := IndexByte(buf[pos..], LF);
      }
    }

    /** Looks at the line behind the one that ends at pos + n: does the value go on, or is its colon worth remembering? */
    method Lookahead(n: nat) returns (folded: bool)
      requires pos + n < buf.Length && nextColon == -1 && nextNewLine < 0
      modifies this`nextColon, this`nextNewLine
      ensures folded == GoesOn(buf[pos + n + 1..])
      ensures !folded ==> CacheOk(buf[pos + n + 1..], nextColon, nextNewLine)
    {
      var next := buf[pos + n + 1..];
      if |next| == 0 || (next[0] != SPACE && next[0] != TAB) {
        return false;
      }
      var d := IndexByte(next, LF);
      if d <= 0 {
        return false;
      }
      var c := IndexByte(next[..d], COLON);
      IndexByteFirst(next[..d], COLON);
      if c >= 0 {
        LookaheadCache(next);
        nextColon := c;
        nextNewLine := d - c - 1;
        return false;
      }
      folded := true;
    }

    /** The value without the end of its line. */
    method TrimValue(n: nat) returns (v: bytes)
      requires pos + n <= buf.Length
      ensures v == TrimEnd(buf[pos..pos + n])
    {
      var m := n;
      if m > 0 && buf[pos + m - 1] == CR {
        m := m - 1;
      }
      ghost var t := buf[pos..pos + m];
      assert n > 0 ==> buf[pos..pos + n][n - 1] == buf[pos + n - 1];
      assert n > 0 ==> buf[pos..pos + n][..n - 1] == buf[pos..pos + n - 1];
      while m > 0 && buf[pos + m - 1] == SPACE
        invariant 0 <= m <= n && TrimSpaces(buf[pos..pos + m]) == TrimSpaces(t)
      {
        assert buf[pos..pos + m][..m - 1] == buf[pos..pos + m - 1];
        m := m - 1;
      }
      v := buf[pos..pos + m];
    }

    /** The key of n bytes, its colon and the spaces behind it. */
    method TakeKey(n: nat, ghost b: bytes) returns (ghost m: nat)
      requires pos <= buf.Length && b == buf[pos..] && n == IndexByte(b, COLON) < IndexByte(b, LF)
      requires nextNewLine >= 0 ==> IndexByte(b, LF) == n + 1 + nextNewLine
      modifies this`pos, this`hLen, this`key, this`nextNewLine, buf
      ensures m == n + 1 + Spaces(b[n + 1..]) && pos == old(pos) + m <= buf.Length && hLen == old(hLen) + m
      ensures key == NormalKey(b[..n], raw) && buf[pos..] == b[m..]
      ensures nextNewLine >= 0 ==> nextNewLine == IndexByte(buf[pos..], LF)
      ensures forall k :: 0 <= k < old(pos) ==> buf[k] == old(buf[k])
    {
      hide NormalKey, Spaces, IndexByte;
      m := MoveBehindKey(n, b);
      LineEndBehind(b, n, m);
    }

    method MoveBehindKey(n: nat, ghost b: bytes) returns (ghost m: nat)
      requires pos <= buf.Length && b == buf[pos..] && n < |b|
      modifies this`pos, this`hLen, this`key, this`nextNewLine, buf
      ensures m == n + 1 + Spaces(b[n + 1..]) && pos == old(pos) + m <= buf.Length && hLen == old(hLen) + m
      ensures key == NormalKey(b[..n], raw) && buf[pos..] == b[m..]
      ensures nextNewLine == old(nextNewLine) - (m - (n + 1))
      ensures forall k :: 0 <= k < old(pos) ==> buf[k] == old(buf[k])
    {
      hide NormalKey, Spaces;
      NormalizeKeyPart(n, b);
      var i := SkipSpaces(n + 1, b[n + 1..]);
      m := i;
      TailAfter(buf, pos, n + 1, i, b);
      hLen := hLen + i;
      pos := pos + i;
    }

    method NormalizeKeyPart(n: nat, ghost b: bytes)
      requires pos <= buf.Length && b == buf[pos..] && n < |b|
      modifies this`key, buf
      ensures key == NormalKey(b[..n], raw) && buf[pos + (n + 1)..] == b[n + 1..]
      ensures forall k :: 0 <= k < pos || pos + n <= k < buf.Length ==> buf[k] == old(buf[k])
    {
      hide NormalKey;
      NormalizeHeaderKey(buf, pos, pos + n, raw, b[..n]);
      HoldsSlice(buf, pos, NormalKey(b[..n], raw));
      key := buf[pos..pos + n];
    }

    /** The value at pos, unless it goes on. */
    method TakeValue(ghost r: bytes) returns (ok: bool, folded: bool)
      requires pos <= buf.Length && r == buf[pos..] && err == NoError && nextColon == -1
      requires nextNewLine >= 0 ==> nextNewLine == IndexByte(r, LF)
      modifies this`pos, this`hLen, this`value, this`err, this`nextColon, this`nextNewLine
      ensures var y := IndexByte(r, LF);
              if y < 0 then !ok && err == NeedMore
              else if GoesOn(r[y + 1..]) then ok && folded
              else && ok && !folded && err == NoError && value == TrimEnd(r[..y])
                   && pos == old(pos) + (y + 1) <= buf.Length && hLen == old(hLen) + (y + 1)
                   && buf[pos..] == r[y + 1..]
                   && CacheOk(buf[pos..], nextColon, nextNewLine)
    {
      hide GoesOn, TrimEnd, CacheOk, IndexByte;
      var n := FindNewLine();
      if n < 0 {
        err := NeedMore;
        return false, false;
      }
      assert r[n + 1..] == buf[pos + n + 1..] && r[..n] == buf[pos..pos + n];
      folded := Lookahead(n);
      if folded {
        return true, true;
      }
      value := TrimValue(n);
      hLen := hLen + (n + 1);
      pos := pos + (n + 1);
      ok := true;
    }

    /** The first test of Next: is this the empty line? */
    method AtEmptyLine(ghost b: bytes) returns (n: nat)
      requires pos <= buf.Length && b == buf[pos..]
      ensures n == EmptyLine(b)
    {
      var bLen := buf.Length - pos;
      if bLen >= 2 && buf[pos] == CR && buf[pos + 1] == LF {
        return 2;
      }
      if bLen >= 1 && buf[pos] == LF {
        return 1;
      }
      n := 0;
    }

    /** Next on a line with a key of n bytes. */
    method TakeField(n: nat, ghost b: bytes) returns (ok: bool, folded: bool)
      requires initialized && err == NoError && nextColon == -1 && EmptyLine(b) == 0
      requires pos <= buf.Length && b == buf[pos..] && n == IndexByte(b, COLON) < IndexByte(b, LF)
      requires nextNewLine >= 0 ==> IndexByte(b, LF) == n + 1 + nextNewLine
      modifies this, buf
      ensures match ScanLine(b, raw)
              case EndOfBlock(_) => false
              case Bad(e) => !ok && err == e
              case Folded => ok && folded
              case Field(k, v, n) =>
                && ok && !folded && err == NoError && key == k && value == v && Valid()
                && n <= |b| && pos == old(pos) + n && hLen == old(hLen) + n && buf[pos..] == b[n..]
      ensures forall k :: 0 <= k < old(pos) ==> buf[k] == old(buf[k])
    {
      hide ScanLine, GoesOn, TrimEnd, NormalKey, Spaces, IndexByte, EmptyLine, CacheOk;
      ghost var m := TakeKey(n, b);
      ghost var r := b[m..];
      ok, folded := TakeValue(r);
      ScanWithKey(b, raw, n, m, r);
      if IndexByte(r, LF) >= 0 { DropDrop(b, m, IndexByte(r, LF) + 1); }
    }

    /** Next on a line that is not empty. */
    method NextField(ghost b: bytes) returns (ok: bool, folded: bool)
      requires Valid() && initialized && err == NoError && b == buf[pos..] && EmptyLine(b) == 0
      modifies this, buf
      ensures match ScanLine(b, raw)
              case EndOfBlock(_) => false
              case Bad(e) => !ok && err == e
              case Folded => ok && folded
              case Field(k, v, n) =>
                && ok && !folded && err == NoError && key == k && value == v && Valid()
                && n <= |b| && pos == old(pos) + n && hLen == old(hLen) + n && buf[pos..] == b[n..]
      ensures forall k :: 0 <= k < old(pos) ==> buf[k] == old(buf[k])
    {
      hide ScanLine, GoesOn, TrimEnd, NormalKey, Spaces, IndexByte, EmptyLine;
      var n := FindColon(b);
      if n < 0 {
        assert ScanLine(b, raw) == Bad(err) by { ScanWithoutKey(b, raw); }
        return false, false;
      }
      ColonNotLineEnd(b);
      ok, folded := TakeField(n, b);
    }

    /**
     * One header line, or the end of the block. The scan with its remembered positions finds what
     * plain searching finds. A value that goes on in the next line is left to the caller.
     */
    method Next() returns (ok: bool, folded: bool)
      requires Valid() && err == NoError
      modifies this, buf
      ensures match ScanLine(old(buf[pos..]), raw)
              case EndOfBlock(n) => !ok && err == NoError && pos == old(pos) + n && hLen == old(hLen) + n
              case Bad(e) => !ok && err == e
              case Folded => ok && folded
              case Field(k, v, n) =>
                && ok && !folded && err == NoError && key == k && value == v && Valid()
                && n <= |old(buf[pos..])| && pos == old(pos) + n && hLen == old(hLen) + n
                && buf[pos..] == old(buf[pos..])[n..]
      ensures forall k :: 0 <= k < old(pos) ==> buf[k] == old(buf[k])
    {
      hide ScanLine, IndexByte, EmptyLine;
      ghost var b := buf[pos..];
      if !initialized {
        nextColon, nextNewLine, initialized := -1, -1, true;
      }
      var e := AtEmptyLine(b);
      if e > 0 {
        ScanEmpty(b, raw);
        pos, hLen := pos + e, hLen + e;
        return false, false;
      }
      ok, folded := NextField(b);
    }
  }

  lemma TailAfter(buf: array<byte>, pos: nat, k: nat, i: nat, b: bytes)
    requires pos + |b| == buf.Length && k <= i <= |b| && buf[pos + k..] == b[k..]
    ensures buf[pos + i..] == b[i..]
  {
    assert buf[pos + i..] == buf[pos + k..][i - k..];
    DropDrop(b, k, i - k);
  }

  lemma ScanEmpty(b: bytes, raw: bool)
    requires EmptyLine(b) > 0
    ensures ScanLine(b, raw) == EndOfBlock(EmptyLine(b))
  {
  }

  lemma ColonNotLineEnd(b: bytes)
    ensures IndexByte(b, COLON) == IndexByte(b, LF) ==> IndexByte(b, COLON) < 0
  {
  }

  lemma DropDrop(b: bytes, m: nat, k: nat)
    requires m + k <= |b|
    ensures b[m..][k..] == b[m + k..]
  {
  }
}
