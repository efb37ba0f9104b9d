/** Hexadecimal chunk sizes and decimal integers on the wire. */
module Numbers {
  import opened Bytes
  import opened Escape
  import opened Streams

  const MAXHEXINTCHARS: nat := 15     // on 64-bit platforms
  const MAXINT: int := 0x7fff_ffff_ffff_ffff

  function Pow(b: nat, k: nat): nat {
    if k == 0 then 1 else b * Pow(b, k - 1)
  }

  // ---- Hexadecimal ------------------------------------------------------------------------

  predicate IsHex(c: byte) {
    Hex2Int(c) != NOTHEX
  }

  /** How many hex digits a text starts with. */
  function HexLen(s: bytes): (d: nat)
    ensures d <= |s|
  {
    if s == [] || !IsHex(s[0]) then 0 else 1 + HexLen(s[1..])
  }

  lemma {:induction false} HexLenMaximal(s: bytes)
    ensures (forall i :: 0 <= i < HexLen(s) ==> IsHex(s[i])) && (HexLen(s) < |s| ==> !IsHex(s[HexLen(s)]))
  {
    if s != [] && IsHex(s[0]) {
      HexLenMaximal(s[1..]);
    }
  }

  function HexValue(s: bytes): nat {
    if s == [] then 0 else HexValue(s[..|s| - 1]) * 16 + Hex2Int(s[|s| - 1])
  }

  ghost predicate AllHex(s: bytes) {
    forall i :: 0 <= i < |s| ==> IsHex(s[i])
  }

  lemma {:induction false} HexValueBound(s: bytes)
    requires AllHex(s)
    ensures HexValue(s) < Pow(16, |s|)
  {
    if s != [] {
      HexValueBound(s[..|s| - 1]);
    }
  }

  function LowerHex(k: nat): (c: byte)
    requires k < 16
    ensures Hex2Int(c) == k
  {
    if k < 10 then 48 + k else 97 + (k - 10)
  }

  /** The shortest lower-case hex form of a number. */
  function HexDigits(n: nat): (s: bytes)
    ensures s != []
  {
    if n < 16 then [LowerHex(n)] else HexDigits(n / 16) + [LowerHex(n % 16)]
  }

  lemma {:induction false} HexDigitsValue(n: nat)
    ensures AllHex(HexDigits(n)) && HexValue(HexDigits(n)) == n
  {
    var s := HexDigits(n);
    if n < 16 {
      assert s[..0] == [];
    } else {
      HexDigitsValue(n / 16);
      assert s[..|s| - 1] == HexDigits(n / 16);
    }
  }

  lemma {:induction false} HexDigitsLength(n: nat, k: nat)
    requires k >= 1
    ensures |HexDigits(n)| <= k <==> n < Pow(16, k)
  {
    if n < 16 {
      PowMonotone(16, 1, k);
      assert Pow(16, 1) == 16 * Pow(16, 0);
    } else if k == 1 {
      assert Pow(16, 1) == 16 * Pow(16, 0);
    } else {
      HexDigitsLength(n / 16, k - 1);
      assert n / 16 < Pow(16, k - 1) <==> n < 16 * Pow(16, k - 1);
    }
  }

  lemma {:induction false} PowMonotone(b: nat, j: nat, k: nat)
    requires b >= 1 && j <= k
    ensures 1 <= Pow(b, j) <= Pow(b, k)
    decreases k
  {
    if k > j {
      PowMonotone(b, j, k - 1);
    } else if j > 0 {
      PowMonotone(b, j - 1, k - 1);
    }
  }

  lemma {:induction false} HexLenConcat(s: bytes, t: bytes)
    requires AllHex(s) && (t == [] || !IsHex(t[0]))
    ensures HexLen(s + t) == |s|
  {
    if s == [] {
      assert s + t == t;
    } else {
      assert (s + t)[1..] == s[1..] + t;
      HexLenConcat(s[1..], t);
    }
  }

  /** A value read from the front of a stream, with the bytes left, or an error. */
  datatype Parsed = Parsed(value: nat, rest: bytes) | Unparsed(err: Error)

  /** What a hex number at the front of a stream is read as; `fail` is the error the stream ends with. */
  function HexHead(s: bytes, fail: Error): (r: Parsed)
    ensures r.Parsed? ==> |r.rest| < |s|
  {
    var d := HexLen(s);
    if d == 0 then Unparsed(if s == [] then fail else EmptyHexNum)
    else if d > MAXHEXINTCHARS then Unparsed(TooLargeHexNum)
    else if d == |s| && fail != EOF then Unparsed(fail)
    else Parsed(HexValue(s[..d]), s[d..])
  }

  /** Digit by digit, from the character codes. */
  lemma HexByDigit(s: bytes, c: byte, v: nat)
    ensures HexDigit(c, v) ==> HexValue(s + [c]) == 16 * HexValue(s) + v
    ensures HexValue([]) == 0
    ensures IsHex(c) <==> 48 <= c <= 57 || 65 <= c <= 70 || 97 <= c <= 102
  {
    assert (s + [c])[..|s|] == s;
  }

  /** A number at the front of a stream: up to fifteen digits, and then something else or the end. */
  lemma HexFront(s: bytes, t: bytes, fail: Error)
    requires (forall c :: c in s ==> 48 <= c <= 57 || 65 <= c <= 70 || 97 <= c <= 102)
    requires t != [] ==> !(48 <= t[0] <= 57 || 65 <= t[0] <= 70 || 97 <= t[0] <= 102)
    ensures HexHead(s + t, fail) ==
      if s == [] then Unparsed(if t == [] then fail else EmptyHexNum)
      else if |s| > 15 then Unparsed(TooLargeHexNum)
      else if t == [] && fail != EOF then Unparsed(fail)
      else Parsed(HexValue(s), t)
  {
    forall i | 0 <= i < |s| ensures IsHex(s[i]) {
      assert s[i] in s;
    }
    HexLenConcat(s, t);
    assert (s + t)[..|s|] == s && (s + t)[|s|..] == t;
    hide HexLen, HexValue;
  }

  method ReadHexInt(r: BufReader) returns (n: int, err: Error)
    requires r.Valid()
    modifies r
    ensures r.Valid()
    ensures match HexHead(old(r.rest), r.fail)
            case Parsed(v, t) => err == NoError && n == v && r.rest == t
            case Unparsed(e) => err == e && n == -1
    ensures n <= MAXINT
  {
    n := 0;
    var i := 0;
    ghost var s := r.rest;
    while true
      invariant r.Valid() && 0 <= i <= |s| && i <= MAXHEXINTCHARS
      invariant r.rest == s[i..] && AllHex(s[..i]) && n == HexValue(s[..i])
      decreases MAXHEXINTCHARS - i
    {
      HexPrefix(s, i);
      var c, e := r.ReadByte();
      if e != NoError {
        if e == EOF && i > 0 {
          return n, NoError;
        }
        return -1, e;
      }
      var k := Hex2Int(c);
      if k == NOTHEX {
        if i == 0 {
          return -1, EmptyHexNum;
        }
        var e' := r.UnreadByte();
        assert r.rest == s[i..];
        return n, NoError;
      }
      if i >= MAXHEXINTCHARS {
        return -1, TooLargeHexNum;
      }
      assert s[..i + 1][..i] == s[..i];
      n := n * 16 + k;
      i := i + 1;
    }
  }

  /** After i hex digits the loop knows which way HexHead goes. */
  lemma HexPrefix(s: bytes, i: nat)
    requires i <= |s| && i <= MAXHEXINTCHARS && AllHex(s[..i])
    ensures i <= HexLen(s) && (HexLen(s) == i <==> i == |s| || !IsHex(s[i]))
    ensures HexValue(s[..i]) <= MAXINT
  {
    forall j | 0 <= j < i ensures IsHex(s[j]) {
      assert s[..i][j] == s[j];
    }
    HexLenMaximal(s);
    HexValueBound(s[..i]);
    PowMonotone(16, i, MAXHEXINTCHARS);
    PowFifteen();
  }

  lemma PowFifteen()
    ensures Pow(16, MAXHEXINTCHARS) == 0x1000_0000_0000_0000
  {
    assert Pow(16, 5) == 0x10_0000;
    assert Pow(16, 10) == 0x100_0000_0000;
    assert Pow(16, 15) == 0x1000_0000_0000_0000;
  }

  lemma HexRoom(n: nat, i: nat)
    requires n < Pow(16, i + 1) && n >= 16
    ensures i > 0 && n / 16 < Pow(16, i)
  {
    assert Pow(16, i + 1) == 16 * Pow(16, i);
  }

  /** Writes the digits of v backwards, ending at the end of the buffer; they start at i. */
  method FillHex(buf: array<byte>, v: nat) returns (i: nat)
    requires buf.Length > 0 && v < Pow(16, buf.Length)
    modifies buf
    ensures i + |HexDigits(v)| == buf.Length && Holds(buf, i, HexDigits(v))
  {
    i := buf.Length - 1;
    var n: nat := v;
    ghost var tail: bytes := [];
    while true
      invariant i < buf.Length && |tail| == buf.Length - 1 - i && Holds(buf, i + 1, tail)
      invariant n < Pow(16, i + 1)
      invariant HexDigits(v) == HexDigits(n) + tail
      decreases i
    {
      buf[i] := LowerHex(n % 16);
      if n / 16 == 0 {
        break;
      }
      HexRoom(n, i);
      Regroup(HexDigits(n / 16), [LowerHex(n % 16)], tail);
      tail := [LowerHex(n % 16)] + tail;
      n := n / 16;
      i := i - 1;
    }
  }

  /** The digits are written into a buffer of sixteen bytes, enough for any int. */
  method WriteHexInt(w: BufWriter, v: nat) returns (err: Error)
    requires v <= MAXINT
    modifies w
    ensures err == NoError || err.Failure?
    ensures err == NoError ==> w.out == old(w.out) + HexDigits(v)
    ensures old(w.out) <= w.out
  {
    var buf := new byte[MAXHEXINTCHARS + 1];
    PowFifteen();
    assert Pow(16, 16) == 16 * Pow(16, 15);
    var i := FillHex(buf, v);
    HoldsToEnd(buf, i, HexDigits(v));
    err := w.Write(buf[i..]);
  }

  lemma HoldsToEnd(buf: array<byte>, i: nat, s: bytes)
    requires Holds(buf, i, s) && i + |s| == buf.Length
    ensures buf[i..] == s
  {
    assert forall j :: 0 <= j < |s| ==> buf[i..][j] == buf[i + j] == s[j];
  }

  /** readHexInt gets back what writeHexInt wrote, if it is short enough and no hex digit follows. */
  lemma HexRoundTrip(n: nat, t: bytes, fail: Error)
    requires t != [] && !IsHex(t[0])
    ensures n < Pow(16, MAXHEXINTCHARS) ==> HexHead(HexDigits(n) + t, fail) == Parsed(n, t)
    ensures n >= Pow(16, MAXHEXINTCHARS) ==> HexHead(HexDigits(n) + t, fail) == Unparsed(TooLargeHexNum)
  {
    HexDigitsValue(n);
    HexLenConcat(HexDigits(n), t);
    HexDigitsLength(n, MAXHEXINTCHARS);
    var d := |HexDigits(n)|;
    assert (HexDigits(n) + t)[..d] == HexDigits(n) && (HexDigits(n) + t)[d..] == t;
  }

  // ---- Decimal ----------------------------------------------------------------------------

  predicate IsDigit(c: byte) {
    48 <= c <= 57
  }

  function DecValue(s: bytes): int {
    if s == [] then 0 else DecValue(s[..|s| - 1]) * 10 + (s[|s| - 1] as int - 48)
  }

  function DecDigits(n: nat): (s: bytes)
    ensures s != []
  {
    if n < 10 then [48 + n] else DecDigits(n / 10) + [48 + n % 10]
  }

  ghost predicate AllDigits(s: bytes) {
    forall i :: 0 <= i < |s| ==> IsDigit(s[i])
  }

  lemma {:induction false} DecDigitsValue(n: nat)
    ensures AllDigits(DecDigits(n)) && DecValue(DecDigits(n)) == n
  {
    var s := DecDigits(n);
    if n < 10 {
      assert s[..0] == [];
    } else {
      DecDigitsValue(n / 10);
      assert s[..|s| - 1] == DecDigits(n / 10);
    }
  }

  /** Values only grow as digits are read. */
  lemma {:induction false} DecValueGrows(s: bytes, i: nat)
    requires AllDigits(s) && i <= |s|
    ensures 0 <= DecValue(s[..i]) <= DecValue(s)
  {
    if i == |s| {
      assert s[..i] == s;
      if s != [] { DecValueGrows(s[..|s| - 1], |s| - 1); assert s[..|s| - 1][..|s| - 1] == s[..|s| - 1]; }
    } else {
      DecValueGrows(s[..|s| - 1], i);
      assert s[..|s| - 1][..i] == s[..i];
    }
  }

  /** Two's complement wrap-around of a 64-bit int. */
  function Wrap(n: int): (m: int)
    ensures -0x8000_0000_0000_0000 <= m <= MAXINT
    ensures -0x8000_0000_0000_0000 <= n <= MAXINT ==> m == n
  {
    (n + 0x8000_0000_0000_0000) % 0x1_0000_0000_0000_0000 - 0x8000_0000_0000_0000
  }

  datatype UintError = UintOk | EmptyInt | UnexpectedFirstChar | TooLongInt | UnexpectedTrailingChar

  /** What the digit loop of parseUintBuf makes of b[i..], having read v: the value, the bytes used, the error. */
  function UintFrom(b: bytes, i: nat, v: int): (int, nat, UintError)
    requires i <= |b| && 0 <= v <= MAXINT
    decreases |b| - i
  {
    if i == |b| then (v, i, UintOk)
    else if !IsDigit(b[i]) then
      if i == 0 then (-1, i, UnexpectedFirstChar) else (v, i, UintOk)
    else
      var vNew := Wrap(10 * v + (b[i] as int - 48));
      if vNew < v then (-1, i, TooLongInt) else UintFrom(b, i + 1, vNew)
  }

  function ParsedUintBuf(b: bytes): (int, nat, UintError) {
    if b == [] then (-1, 0, EmptyInt) else UintFrom(b, 0, 0)
  }

  method ParseUintBuf(b: bytes) returns (v: int, n: nat, err: UintError)
    ensures (v, n, err) == ParsedUintBuf(b)
  {
    if |b| == 0 {
      return -1, 0, EmptyInt;
    }
    v := 0;
    for i := 0 to |b|
      invariant 0 <= v <= MAXINT
      invariant UintFrom(b, i, v) == UintFrom(b, 0, 0)
    {
      var c := b[i] as int;
      var k := (c - 48) % 256;
      if k > 9 {
        if i == 0 {
          return -1, i, UnexpectedFirstChar;
        }
        return v, i, UintOk;
      }
      var vNew := Wrap(10 * v + k);
      if vNew < v {
        return -1, i, TooLongInt;
      }
      v := vNew;
    }
    n, err := |b|, UintOk;
  }

  // ---- What the digit loop does with numbers that do not fit -------------------------------

  /** The first d bytes are digits, and no more than these. */
  ghost predicate DigitRun(b: bytes, d: nat) {
    d <= |b| && AllDigits(b[..d]) && (d < |b| ==> !IsDigit(b[d]))
  }

  /** The overflow test catches digit k: with it the wrapped value of the prefix gets smaller. */
  ghost predicate Falls(b: bytes, k: nat)
    requires k < |b|
  {
    Wrap(DecValue(b[..k + 1])) < Wrap(DecValue(b[..k]))
  }

  ghost predicate FirstFall(b: bytes, d: nat, k: nat)
    requires d <= |b|
  {
    k < d && Falls(b, k) && forall j :: 0 <= j < k ==> !Falls(b, j)
  }

  /** Wrapping at each digit or once at the end is the same. */
  lemma WrapDigit(n: int, c: int)
    ensures Wrap(10 * Wrap(n) + c) == Wrap(10 * n + c)
  {
    var q := (n + 0x8000_0000_0000_0000) / 0x1_0000_0000_0000_0000;
    assert Wrap(n) == n - 0x1_0000_0000_0000_0000 * q;
  }

  lemma WrapPrefix(b: bytes, k: nat)
    requires k < |b|
    ensures Wrap(10 * Wrap(DecValue(b[..k])) + (b[k] as int - 48)) == Wrap(DecValue(b[..k + 1]))
  {
    assert b[..k + 1][..k] == b[..k];
    WrapDigit(DecValue(b[..k]), b[k] as int - 48);
  }

  lemma {:induction false} UintFromPrefix(b: bytes, d: nat, i: nat)
    requires DigitRun(b, d) && 0 < d && i <= d && 0 <= Wrap(DecValue(b[..i]))
    requires forall j :: 0 <= j < i ==> !Falls(b, j)
    ensures var r := UintFrom(b, i, Wrap(DecValue(b[..i])));
      && ((forall k :: 0 <= k < d ==> !Falls(b, k)) ==> r == (Wrap(DecValue(b[..d])), d, UintOk))
      && (forall k: nat :: FirstFall(b, d, k) ==> r == (-1, k, TooLongInt))
    decreases d - i
  {
    hide Wrap, DecValue;
    if i < d {
      assert IsDigit(b[..d][i]);
      WrapPrefix(b, i);
      if !Falls(b, i) {
        UintFromPrefix(b, d, i + 1);
      }
    }
  }

  /**
   * What parseUintBuf returns, for every input with d digits in front: refused at the first digit that
   * the overflow test catches, and otherwise the value of the digits, wrapped around.
   */
  lemma UintMeaning(b: bytes, d: nat)
    requires DigitRun(b, d)
    ensures d == 0 ==> ParsedUintBuf(b) == (-1, 0, if b == [] then EmptyInt else UnexpectedFirstChar)
    ensures d > 0 && (forall k :: 0 <= k < d ==> !Falls(b, k)) ==>
              ParsedUintBuf(b) == (Wrap(DecValue(b[..d])), d, UintOk)
    ensures forall k: nat :: FirstFall(b, d, k) ==> ParsedUintBuf(b) == (-1, k, TooLongInt)
    ensures (exists k :: 0 <= k < d && Falls(b, k)) <==> ParsedUintBuf(b).2 == TooLongInt
  {
    if d > 0 {
      assert b[..0] == [];
      UintFromPrefix(b, d, 0);
      hide Falls, UintFrom, Wrap;
      if k: nat :| k < d && Falls(b, k) {
        var first := FallsFirst(b, d, k);
      }
    }
  }

  lemma {:induction false} FallsFirst(b: bytes, d: nat, k: nat) returns (first: nat)
    requires k < d <= |b| && Falls(b, k)
    ensures FirstFall(b, d, first)
  {
    hide Falls;
    if j: nat :| j < k && Falls(b, j) {
      first := FallsFirst(b, d, j);
    } else {
      first := k;
    }
  }

  lemma DigitRunExists(b: bytes) returns (d: nat)
    ensures DigitRun(b, d)
  {
    d := 0;
    while d < |b| && IsDigit(b[d])
      invariant d <= |b| && AllDigits(b[..d])
    {
      d := d + 1;
    }
  }

  /** ParseUint never says that a number is too long: what is refused for that is refused as trailing bytes. */
  method ParseUint(b: bytes) returns (v: int, err: UintError)
    ensures (v, err) == if b == [] then (-1, EmptyInt)
                        else if AllDigits(b) && (forall k :: 0 <= k < |b| ==> !Falls(b, k))
                        then (Wrap(DecValue(b)), UintOk)
                        else (-1, UnexpectedTrailingChar)
  {
    ghost var d := DigitRunExists(b);
    UintMeaning(b, d);
    hide Falls, Wrap, DecValue, ParsedUintBuf;
    assert d == |b| ==> b[..d] == b;
    assert d < |b| ==> !AllDigits(b);
    if k: nat :| k < d && Falls(b, k) {
      ghost var first := FallsFirst(b, d, k);
    }
    var n;
    v, n, err := ParseUintBuf(b);
    if n != |b| {
      v, err := -1, UnexpectedTrailingChar;
    }
  }

  /** As long as the number fits no prefix falls. */
  lemma FittingRises(b: bytes, k: nat)
    requires AllDigits(b) && k < |b| && DecValue(b[..k + 1]) <= MAXINT
    ensures !Falls(b, k)
  {
    var c := b[..k + 1];
    DecValueGrows(c, k);
    DecValueGrows(c, |c|);
    assert c[..k] == b[..k] && c[..|c|] == c;
  }

  /** A number is read exactly if and only if it fits in an int. */
  lemma UintExact(b: bytes)
    requires b != [] && AllDigits(b)
    ensures ParsedUintBuf(b) == (DecValue(b), |b|, UintOk) <==> DecValue(b) <= MAXINT
  {
    assert b[..|b|] == b;
    UintMeaning(b, |b|);
    DecValueGrows(b, |b|);
    forall k | 0 <= k < |b| ensures DecValue(b) <= MAXINT ==> !Falls(b, k) {
      DecValueGrows(b, k + 1);
      if DecValue(b) <= MAXINT { FittingRises(b, k); }
    }
    hide Falls;
  }

  lemma {:induction false} DecValueBelow(b: bytes)
    requires AllDigits(b)
    ensures DecValue(b) < Pow(10, |b|)
  {
    if b != [] {
      DecValueBelow(b[..|b| - 1]);
      assert Pow(10, |b|) == 10 * Pow(10, |b| - 1);
    }
  }

  /** The prefixes of a number are its quotients, and short ones fit. */
  lemma Prefixes(b: bytes, k: nat)
    requires AllDigits(b) && k < |b|
    ensures var n := DecValue(b[..k + 1]);
      && DecValue(b[..k]) == n / 10 && 0 <= n
      && (k < 18 ==> n <= MAXINT)
      && (k < 19 ==> n < 10000000000000000000)
  {
    var c := b[..k + 1];
    DecValueGrows(c, k);
    assert c[..k] == b[..k];
    DecValueGrows(c, 0);
    DecValueBelow(c);
    TenPowers();
    if k < 18 { PowMonotone(10, k + 1, 18); }
    if k < 19 { PowMonotone(10, k + 1, 19); }
    assert DecValue(c) == DecValue(b[..k]) * 10 + (c[k] as int - 48) && IsDigit(b[k]);
  }

  lemma TenPowers()
    ensures Pow(10, 18) == 1000000000000000000 && Pow(10, 19) == 10000000000000000000
  {
    assert Pow(10, 6) == 1000000;
    assert Pow(10, 12) == 1000000000000;
  }

  lemma LastFalls(b: bytes)
    requires AllDigits(b) && |b| <= 19 && DecValue(b) > MAXINT
    ensures Falls(b, |b| - 1)
  {
    assert b[..|b|] == b;
    Prefixes(b, |b| - 1);
  }

  /**
   * A number that does not fit is let through, as the number it wraps around to, if and only if no
   * prefix falls. With at most 19 digits it never is.
   */
  lemma OverflowLetThrough(b: bytes)
    requires AllDigits(b) && DecValue(b) > MAXINT
    ensures ParsedUintBuf(b).2 == UintOk <==> forall k :: 0 <= k < |b| ==> !Falls(b, k)
    ensures ParsedUintBuf(b).2 == UintOk ==>
              ParsedUintBuf(b) == (Wrap(DecValue(b)), |b|, UintOk) && Wrap(DecValue(b)) != DecValue(b)
    ensures |b| <= 19 ==> ParsedUintBuf(b).2 == TooLongInt
  {
    hide Falls, ParsedUintBuf;
    assert b[..|b|] == b;
    UintMeaning(b, |b|);
    if |b| <= 19 {
      LastFalls(b);
    }
    hide Wrap, DecValue;
  }

  /** With 20 digits the condition is about the number alone: it is 2^64 or more, and not much more. */
  lemma TwentyDigits(b: bytes)
    requires AllDigits(b) && |b| == 20 && DecValue(b) > MAXINT
    ensures var n := DecValue(b);
      ParsedUintBuf(b).2 == UintOk <==> n / 10 <= MAXINT && n / 10 <= Wrap(n)
  {
    var n := DecValue(b);
    assert b[..20] == b;
    forall k | 0 <= k < 18 ensures !Falls(b, k) {
      Prefixes(b, k);
      FittingRises(b, k);
    }
    Prefixes(b, 18);
    Prefixes(b, 19);
    assert Falls(b, 18) <==> n / 10 > MAXINT;
    assert n / 10 <= MAXINT ==> (Falls(b, 19) <==> Wrap(n) < n / 10);
    OverflowLetThrough(b);
    hide Falls, UintFrom;
  }

  lemma {:induction false} ZerosValue(b: bytes, k: nat)
    ensures AllDigits(b) ==> AllDigits(b + seq(k, _ => 48))
    ensures DecValue(b + seq(k, _ => 48)) == DecValue(b) * Pow(10, k)
  {
    var s := b + seq(k, _ => 48);
    if k == 0 {
      assert s == b;
    } else {
      ZerosValue(b, k - 1);
      assert s[..|s| - 1] == b + seq(k - 1, _ => 48);
      assert DecValue(b) * Pow(10, k - 1) * 10 == DecValue(b) * (10 * Pow(10, k - 1));
    }
  }

  /** So 41 * 10^18 is read as another number. */
  lemma OverflowMissed()
    ensures var b := DecDigits(41) + seq(18, _ => 48);
      && AllDigits(b) && DecValue(b) == 41000000000000000000
      && ParsedUintBuf(b) == (4106511852580896768, 20, UintOk)
  {
    var b := DecDigits(41) + seq(18, _ => 48);
    DecDigitsValue(41);
    ZerosValue(DecDigits(41), 18);
    TenPowers();
    assert |DecDigits(41)| == 2 by { assert DecDigits(41) == [52, 49]; }
    TwentyDigits(b);
    OverflowLetThrough(b);
  }

  /** Writes the decimal digits of v backwards, ending at the end of the buffer. */
  method FillDec(buf: array<byte>, v: nat) returns (i: nat)
    requires buf.Length > 0 && v < Pow(10, buf.Length)
    modifies buf
    ensures i + |DecDigits(v)| == buf.Length && Holds(buf, i, DecDigits(v))
  {
    i := buf.Length;
    var n: nat := v;
    ghost var tail: bytes := [];
    while n >= 10
      invariant 0 < i <= buf.Length && |tail| == buf.Length - i && Holds(buf, i, tail)
      invariant n < Pow(10, i) && DecDigits(v) == DecDigits(n) + tail
      decreases n
    {
      DecRoom(n, i);
      Regroup(DecDigits(n / 10), [48 + n % 10], tail);
      i := i - 1;
      var q := n / 10;
      buf[i] := 48 + (n - q * 10);
      tail := [48 + n % 10] + tail;
      n := q;
    }
    i := i - 1;
    buf[i] := 48 + n;
  }

  /** AppendUint: twenty bytes are enough for any int. */
  method AppendUint(dst: bytes, v: nat) returns (r: bytes)
    requires v <= MAXINT
    ensures r == dst + DecDigits(v)
  {
    var buf := new byte[20];
    TwentyEnough();
    var i := FillDec(buf, v);
    HoldsToEnd(buf, i, DecDigits(v));
    r := dst + buf[i..];
  }

  lemma DecRoom(n: nat, i: nat)
    requires n < Pow(10, i) && n >= 10 && i > 0
    ensures i > 1 && n / 10 < Pow(10, i - 1)
  {
    assert Pow(10, i) == 10 * Pow(10, i - 1);
    assert Pow(10, 1) == 10;
  }

  lemma TwentyEnough()
    ensures MAXINT < Pow(10, 20)
  {
    TenPowers();
    assert Pow(10, 20) == 10 * Pow(10, 19);
  }

  /** Reading back what was printed gives the same number, for every int. */
  lemma UintRoundTrip(v: nat)
    requires v <= MAXINT
    ensures ParsedUintBuf(DecDigits(v)) == (v, |DecDigits(v)|, UintOk)
  {
    DecDigitsValue(v);
    UintExact(DecDigits(v));
  }
}
