/** Percent-encoding and decoding of query arguments and paths. */
module Escape {
  import opened Bytes

  // ---- Tables -----------------------------------------------------------------------------

  const NOTHEX: byte := 16

  /** The value of a hex digit of either case, 16 for any other byte. */
  function Hex2Int(c: byte): (k: byte)
    ensures 0 <= k <= 16
  {
    if 48 <= c <= 57 then c - 48
    else if 97 <= c <= 102 then c - 97 + 10
    else if 65 <= c <= 70 then c - 65 + 10
    else NOTHEX
  }

  function UpperHex(k: nat): (c: byte)
    requires k < 16
    ensures Hex2Int(c) == k
  {
    if k < 10 then 48 + k else 65 + (k - 10)
  }

  predicate Alphanumeric(c: byte) {
    48 <= c <= 57 || 65 <= c <= 90 || 97 <= c <= 122
  }

  /** Everything but the unreserved characters of section 2.3 of RFC 3986. */
  predicate ArgShouldEscape(c: byte) {
    !(Alphanumeric(c) || c == DASH || c == 95 || c == DOT || c == 126)
  }

  /** A path may also hold $ & + , / : ; = @ as they are. */
  predicate PathShouldEscape(c: byte) {
    ArgShouldEscape(c) && c !in [36, AMP, PLUS, 44, SLASH, COLON, 59, EQUALS, AT]
  }

  // ---- Decoding ---------------------------------------------------------------------------

  predicate EscapeAt(s: bytes)
    requires |s| >= 3
  {
    Hex2Int(s[1]) != NOTHEX && Hex2Int(s[2]) != NOTHEX
  }

  /**
   * The decoded text. A '%' that does not start an escape stands for itself, and one with fewer
   * than two bytes after it leaves the rest of the text as it is, plus signs included.
   */
  function Unescape(s: bytes, plus: bool): (r: bytes)
    ensures |r| <= |s|
  {
    if s == [] then []
    else if s[0] == PERCENT then
      if |s| < 3 then s
      else if EscapeAt(s) then
        [Hex2Int(s[1]) * 16 + Hex2Int(s[2])] + Unescape(s[3..], plus)
      else [PERCENT] + Unescape(s[1..], plus)
    else [if plus && s[0] == PLUS then SPACE else s[0]] + Unescape(s[1..], plus)
  }

  /** One turn of the decoding loop: the bytes it emits and how many bytes it uses up. */
  function Emit(s: bytes, plus: bool): (r: (bytes, nat))
    requires s != []
    ensures 1 <= |r.0| <= r.1 <= |s|
    ensures Unescape(s, plus) == r.0 + Unescape(s[r.1..], plus)
  {
    if s[0] == PERCENT then
      if |s| < 3 then (s, |s|)
      else if EscapeAt(s) then ([Hex2Int(s[1]) * 16 + Hex2Int(s[2])], 3)
      else ([PERCENT], 1)
    else ([if plus && s[0] == PLUS then SPACE else s[0]], 1)
  }

  lemma {:induction false} UnescapePlain(s: bytes, plus: bool)
    requires PERCENT !in s && (plus ==> PLUS !in s)
    ensures Unescape(s, plus) == s
  {
    if s != [] {
      UnescapePlain(s[1..], plus);
      assert s == [s[0]] + s[1..];
    }
  }

  /** decodeArgAppend (plus) and decodeArgAppendNoPlus (not plus) into a buffer of their own. */
  method DecodeAppend(dst: bytes, src: bytes, plus: bool) returns (r: bytes)
    ensures r == dst + Unescape(src, plus)
  {
    if IndexByte(src, PERCENT) < 0 && (plus ==> IndexByte(src, PLUS) < 0) {
      IndexByteFirst(src, PERCENT);
      IndexByteFirst(src, PLUS);
      UnescapePlain(src, plus);
      return dst + src;
    }
    r := dst;
    var i := 0;
    while i < |src|
      invariant 0 <= i <= |src|
      invariant r + Unescape(src[i..], plus) == dst + Unescape(src, plus)
    {
      var c := src[i];
      ghost var emit := Emit(src[i..], plus);
      ghost var done, j := r, i;
      assert src[i..][emit.1..] == src[i + emit.1..];
      if c == PERCENT {
        if i + 2 >= |src| {
          return r + src[i..];
        }
        var x2 := Hex2Int(src[i + 2]);
        var x1 := Hex2Int(src[i + 1]);
        if x1 == NOTHEX || x2 == NOTHEX {
          r := r + [PERCENT];
        } else {
          r := r + [x1 * 16 + x2];
          i := i + 2;
        }
      } else if plus && c == PLUS {
        r := r + [SPACE];
      } else {
        r := r + [c];
      }
      i := i + 1;
      assert r == done + emit.0 && i == j + emit.1;
      Regroup(done, emit.0, Unescape(src[i..], plus));
    }
  }

  /** After p bytes read and q bytes written, what is left to write is the decoding of what is left to read. */
  ghost predicate InStep(total: bytes, src: bytes, plus: bool, p: nat, q: nat) {
    p <= |src| && q <= |total| && q <= p && total[q..] == Unescape(src[p..], plus)
  }

  lemma DecodeProgress(total: bytes, src: bytes, plus: bool, p: nat, q: nat)
    requires p < |src| && InStep(total, src, plus, p, q)
    ensures var emit := Emit(src[p..], plus);
            && InStep(total, src, plus, p + emit.1, q + |emit.0|)
            && total[q..q + |emit.0|] == emit.0
  {
    var emit := Emit(src[p..], plus);
    assert src[p..][emit.1..] == src[p + emit.1..];
    assert total[q..][..|emit.0|] == emit.0;
    assert total[q..][|emit.0|..] == Unescape(src[p + emit.1..], plus);
  }

  /** One turn of that loop when the output is written into the buffer being read, at w <= i. */
  method DecodeOne(buf: array<byte>, w: nat, i: nat, hi: nat, plus: bool, ghost s: bytes) returns (w': nat, i': nat)
    requires w <= i < hi <= buf.Length
    requires |s| == hi - i && Holds(buf, i, s)
    modifies buf
    ensures var emit := Emit(s, plus);
            w' == w + |emit.0| && i' == i + emit.1 && Holds(buf, w, emit.0)
    ensures forall k :: 0 <= k < w || i' <= k < buf.Length ==> buf[k] == old(buf[k])
  {
    var c := buf[i];
    w', i' := w + 1, i + 1;
    if c == PERCENT {
      if i + 2 >= hi {
        CopyDown(buf, w, i, hi);
        w', i' := w + (hi - i), hi;
        return;
      }
      var x2 := Hex2Int(buf[i + 2]);
      var x1 := Hex2Int(buf[i + 1]);
      if x1 == NOTHEX || x2 == NOTHEX {
        buf[w] := PERCENT;
      } else {
        buf[w] := x1 * 16 + x2;
        i' := i + 3;
      }
    } else if plus && c == PLUS {
      buf[w] := SPACE;
    } else {
      buf[w] := c;
    }
  }

  /** That turn seen from the whole text: `total` is what must have been written at the end. */
  method DecodeStep(buf: array<byte>, start: nat, w: nat, i: nat, lo: nat, hi: nat, plus: bool,
                    ghost src: bytes, ghost total: bytes)
    returns (w': nat, i': nat)
    requires start <= lo <= i < hi <= buf.Length && start <= w
    requires |src| == hi - lo && Holds(buf, i, src[i - lo..])
    requires InStep(total, src, plus, i - lo, w - start)
    modifies buf
    ensures w <= w' && i < i' <= hi && InStep(total, src, plus, i' - lo, w' - start)
    ensures Holds(buf, w, total[w - start..w' - start])
    ensures forall k :: 0 <= k < w || i' <= k < buf.Length ==> buf[k] == old(buf[k])
  {
    ghost var p, q := i - lo, w - start;
    DecodeProgress(total, src, plus, p, q);
    w', i' := DecodeOne(buf, w, i, hi, plus, src[p..]);
    assert i' - lo == p + Emit(src[p..], plus).1 && w' - start == q + |Emit(src[p..], plus).0|;
  }

  /** The slow path of decoding within one buffer. */
  method DecodeLoop(buf: array<byte>, start: nat, lo: nat, hi: nat, plus: bool, ghost src: bytes)
    returns (w: nat)
    requires start <= lo <= hi <= buf.Length
    requires |src| == hi - lo && Holds(buf, lo, src)
    modifies buf
    ensures start <= w <= hi
    ensures w - start == |Unescape(src, plus)| && Holds(buf, start, Unescape(src, plus))
    ensures forall k :: 0 <= k < start || hi <= k < buf.Length ==> buf[k] == old(buf[k])
  {
    hide Unescape, Emit;
    ghost var total := Unescape(src, plus);
    w := start;
    var i := lo;
    while i < hi
      invariant lo <= i <= hi && start <= w && InStep(total, src, plus, i - lo, w - start)
      invariant forall k :: 0 <= k < start || hi <= k < buf.Length ==> buf[k] == old(buf[k])
      invariant forall k {:trigger buf[k]} :: i <= k < hi ==> buf[k] == src[k - lo]
      invariant forall k {:trigger buf[k]} :: start <= k < w ==> buf[k] == total[k - start]
    {
      w, i := DecodeStep(buf, start, w, i, lo, hi, plus, src, total);
    }
  }

  /**
   * The same decoding when dst and src share one buffer: src is buf[lo..hi] and the output grows
   * from `start`, at or below it. The output never reaches bytes that are still to be read.
   */
  method DecodeWithin(buf: array<byte>, start: nat, lo: nat, hi: nat, plus: bool) returns (w: nat)
    requires start <= lo <= hi <= buf.Length
    modifies buf
    ensures start <= w <= hi
    ensures buf[start..w] == Unescape(old(buf[lo..hi]), plus)
    ensures forall k :: 0 <= k < start || hi <= k < buf.Length ==> buf[k] == old(buf[k])
  {
    hide Unescape, IndexByte;
    ghost var src := buf[lo..hi];
    if IndexByte(buf[lo..hi], PERCENT) < 0 && (plus ==> IndexByte(buf[lo..hi], PLUS) < 0) {
      IndexByteFirst(src, PERCENT);
      IndexByteFirst(src, PLUS);
      UnescapePlain(src, plus);
      CopyDown(buf, start, lo, hi);
      w := start + (hi - lo);
    } else {
      w := DecodeLoop(buf, start, lo, hi, plus, src);
      HoldsSlice(buf, start, Unescape(src, plus));
    }
  }

  // ---- Encoding ---------------------------------------------------------------------------

  function Escaped(c: byte): bytes {
    [PERCENT, UpperHex(c / 16), UpperHex(c % 16)]
  }

  function QuoteArgByte(c: byte): bytes {
    if c == SPACE then [PLUS] else if ArgShouldEscape(c) then Escaped(c) else [c]
  }

  function QuoteArg(s: bytes): bytes {
    if s == [] then [] else QuoteArgByte(s[0]) + QuoteArg(s[1..])
  }

  function QuotePathByte(c: byte): bytes {
    if PathShouldEscape(c) then Escaped(c) else [c]
  }

  function QuotePathBytes(s: bytes): bytes {
    if s == [] then [] else QuotePathByte(s[0]) + QuotePathBytes(s[1..])
  }

  /** The path of the server-wide request "*" is not quoted. */
  function QuotePath(s: bytes): bytes {
    if s == [STAR] then [STAR] else QuotePathBytes(s)
  }

  method AppendQuotedArg(dst: bytes, src: bytes) returns (r: bytes)
    ensures r == dst + QuoteArg(src)
  {
    r := dst;
    for i := 0 to |src|
      invariant r + QuoteArg(src[i..]) == dst + QuoteArg(src)
    {
      var c := src[i];
      ghost var done := r;
      assert src[i..][1..] == src[i + 1..];
      if c == SPACE {
        r := r + [PLUS];
      } else if ArgShouldEscape(c) {
        r := r + [PERCENT, UpperHex(c / 16), UpperHex(c % 16)];
      } else {
        r := r + [c];
      }
      assert r == done + QuoteArgByte(c);
      Regroup(done, QuoteArgByte(c), QuoteArg(src[i + 1..]));
    }
  }

  method AppendQuotedPath(dst: bytes, src: bytes) returns (r: bytes)
    ensures r == dst + QuotePath(src)
  {
    if |src| == 1 && src[0] == STAR {
      return dst + [STAR];
    }
    r := dst;
    for i := 0 to |src|
      invariant r + QuotePathBytes(src[i..]) == dst + QuotePathBytes(src)
    {
      var c := src[i];
      ghost var done := r;
      assert src[i..][1..] == src[i + 1..];
      if PathShouldEscape(c) {
        r := r + [PERCENT, UpperHex(c / 16), UpperHex(c % 16)];
      } else {
        r := r + [c];
      }
      assert r == done + QuotePathByte(c);
      Regroup(done, QuotePathByte(c), QuotePathBytes(src[i + 1..]));
    }
  }

  // ---- Decoding undoes encoding -----------------------------------------------------------

  lemma UnescapeEscaped(c: byte, rest: bytes, plus: bool)
    ensures Unescape(Escaped(c) + rest, plus) == [c] + Unescape(rest, plus)
  {
    var s := Escaped(c) + rest;
    assert s[3..] == rest;
    assert s[0] == PERCENT && EscapeAt(s);
  }

  lemma {:induction false} UnescapeQuoteArg(s: bytes)
    ensures Unescape(QuoteArg(s), true) == s
  {
    if s != [] {
      var q, rest := QuoteArgByte(s[0]), QuoteArg(s[1..]);
      UnescapeQuoteArg(s[1..]);
      UnescapeEscaped(s[0], rest, true);
      assert |q| == 1 ==> (q + rest)[1..] == rest;
      assert s == [s[0]] + s[1..];
    }
  }

  lemma {:induction false} UnescapeQuotePathBytes(s: bytes)
    ensures Unescape(QuotePathBytes(s), false) == s
  {
    if s != [] {
      var rest := QuotePathBytes(s[1..]);
      UnescapeQuotePathBytes(s[1..]);
      UnescapeEscaped(s[0], rest, false);
      assert ([s[0]] + rest)[1..] == rest;
      assert s == [s[0]] + s[1..];
    }
  }

  lemma UnescapeQuotePath(s: bytes)
    ensures Unescape(QuotePath(s), false) == s
  {
    if s == [STAR] {
      UnescapePlain(s, false);
    } else {
      UnescapeQuotePathBytes(s);
    }
  }

  /** A quoted argument holds none of the characters that separate arguments. */
  lemma {:induction false} QuoteArgSeparators(s: bytes)
    ensures AMP !in QuoteArg(s) && EQUALS !in QuoteArg(s) && HASH !in QuoteArg(s)
  {
    if s != [] {
      QuoteArgSeparators(s[1..]);
      assert forall c :: c in QuoteArg(s) ==> c in QuoteArgByte(s[0]) || c in QuoteArg(s[1..]);
    }
  }

  predicate Control(c: byte) {
    c < SPACE || c == 127
  }

  ghost predicate NoControl(s: bytes) {
    forall i :: 0 <= i < |s| ==> !Control(s[i])
  }

  /** A quoted path holds no byte that ends a path in a URI, and no control byte. */
  lemma {:induction false} QuotePathSeparators(s: bytes)
    ensures QUESTION !in QuotePath(s) && HASH !in QuotePath(s) && NoControl(QuotePath(s))
  {
    if s != [] && s != [STAR] {
      QuotePathBytesSeparators(s);
    }
  }

  lemma {:induction false} QuotePathBytesSeparators(s: bytes)
    ensures QUESTION !in QuotePathBytes(s) && HASH !in QuotePathBytes(s) && NoControl(QuotePathBytes(s))
  {
    if s != [] {
      QuotePathBytesSeparators(s[1..]);
      var q := QuotePathByte(s[0]);
      assert forall i :: 0 <= i < |q| ==> q[i] != QUESTION && q[i] != HASH && !Control(q[i]);
    }
  }
  // ---- Byte by byte -----------------------------------------------------------------------

  /** The value of a hex digit, from the character codes. */
  ghost predicate HexDigit(c: byte, v: nat) {
    || (48 <= c <= 57 && v == c - 48)
    || (65 <= c <= 70 && v == c - 55)
    || (97 <= c <= 102 && v == c - 87)
  }

  /** A percent sign and two hex digits of either case are one byte. */
  lemma UnescapeTriple(a: byte, b: byte, x: nat, y: nat, rest: bytes, plus: bool)
    requires HexDigit(a, x) && HexDigit(b, y)
    ensures Unescape([37, a, b] + rest, plus) == [16 * x + y] + Unescape(rest, plus)
  {
    assert ([37, a, b] + rest)[3..] == rest;
  }

  /** Before anything else a percent sign stands for itself, and one too near the end ends the decoding. */
  lemma UnescapePercent(a: byte, b: byte, rest: bytes, plus: bool)
    ensures !(exists x, y :: HexDigit(a, x) && HexDigit(b, y)) ==>
              Unescape([37, a, b] + rest, plus) == [37] + Unescape([a, b] + rest, plus)
    ensures Unescape([37], plus) == [37] && Unescape([37, a], plus) == [37, a]
  {
    assert ([37, a, b] + rest)[1..] == [a, b] + rest;
    assert Hex2Int(a) != NOTHEX ==> HexDigit(a, Hex2Int(a));
    assert Hex2Int(b) != NOTHEX ==> HexDigit(b, Hex2Int(b));
  }

  /** Every other byte stands for itself, but for a plus sign in a query. */
  lemma UnescapeByte(c: byte, rest: bytes, plus: bool)
    requires c != 37
    ensures Unescape([c] + rest, plus) == [if plus && c == 43 then 32 else c] + Unescape(rest, plus)
    ensures Unescape([], plus) == []
  {
    assert ([c] + rest)[1..] == rest;
  }

  /** Something stays something. */
  lemma UnescapeSome(s: bytes, plus: bool)
    ensures Unescape(s, plus) == [] <==> s == []
  {
  }

  lemma {:induction false} QuoteArgConcat(a: bytes, b: bytes)
    ensures QuoteArg(a + b) == QuoteArg(a) + QuoteArg(b)
  {
    hide QuoteArgByte;
    if a == [] {
      assert a + b == b;
    } else {
      QuoteArgConcat(a[1..], b);
      assert (a + b)[1..] == a[1..] + b;
    }
  }

  lemma {:induction false} QuotePathConcat(a: bytes, b: bytes)
    ensures QuotePathBytes(a + b) == QuotePathBytes(a) + QuotePathBytes(b)
  {
    hide QuotePathByte;
    if a == [] {
      assert a + b == b;
    } else {
      QuotePathConcat(a[1..], b);
      assert (a + b)[1..] == a[1..] + b;
    }
  }

  /** A quoted argument, byte by byte: letters, digits and - . _ ~ as they are, a space as a plus sign. */
  lemma QuoteArgBytes(c: byte)
    ensures QuoteArg([]) == []
    ensures QuoteArg([c]) ==
      if c == 32 then [43]
      else if 48 <= c <= 57 || 65 <= c <= 90 || 97 <= c <= 122 || c in [45, 46, 95, 126] then [c]
      else [37, if c < 160 then 48 + c / 16 else 55 + c / 16, if c % 16 < 10 then 48 + c % 16 else 55 + c % 16]
  {
    assert QuoteArg([c]) == QuoteArgByte(c) + QuoteArg([]);
  }

  /** A quoted path: also $ & + , / : ; = @ as they are; the path of the server-wide request is kept. */
  lemma QuotePathEach(a: bytes, b: bytes, c: byte)
    ensures QuotePath([42]) == [42] && QuotePath([]) == []
    ensures a + b != [42] && a != [42] && b != [42] ==> QuotePath(a + b) == QuotePath(a) + QuotePath(b)
    ensures a != [] && a != [42] ==> QuotePath(a + [42]) == QuotePath(a) + [37, 50, 65]
    ensures c != 42 ==>
      (var kept := 48 <= c <= 57 || 65 <= c <= 90 || 97 <= c <= 122 ||
                   c in [45, 46, 95, 126, 36, 38, 43, 44, 47, 58, 59, 61, 64];
       var high, low := if c < 160 then 48 + c / 16 else 55 + c / 16, if c % 16 < 10 then 48 + c % 16 else 55 + c % 16;
       QuotePath([c]) == if kept then [c] else [37, high, low])
  {
    QuotePathConcat(a, b);
    QuotePathConcat(a, [42]);
    assert QuotePathBytes([42]) == QuotePathByte(42) + QuotePathBytes([]);
    assert QuotePathBytes([c]) == QuotePathByte(c) + QuotePathBytes([]);
  }
}
