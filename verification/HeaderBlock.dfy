/** Whole header blocks: printing a list of fields and scanning it back. */
module HeaderBlock {
  import opened Bytes
  import opened Header

  datatype Pair = Pair(key: bytes, value: bytes)

  /** appendHeaderLine */
  function HeaderLine(p: Pair): bytes {
    p.key + ([COLON] + ([SPACE] + (p.value + CRLF)))
  }

  function Block(list: seq<Pair>): bytes {
    if list == [] then CRLF else HeaderLine(list[0]) + Block(list[1..])
  }

  method AppendHeaderLine(dst: bytes, key: bytes, value: bytes) returns (r: bytes)
    ensures r == dst + HeaderLine(Pair(key, value))
  {
    r := dst + key;
    r := r + [COLON, SPACE];
    r := r + value;
    r := r + CRLF;
  }

  /** How the scan of a block ends. */
  datatype Ending = Whole(len: nat) | Failed(err: ScanError) | Unfolded

  datatype Scanned = Scanned(list: seq<Pair>, ending: Ending)

  function Behind(p: Pair, n: nat, s: Scanned): Scanned {
    Scanned([p] + s.list, if s.ending.Whole? then Whole(n + s.ending.len) else s.ending)
  }

  function ScanAll(b: bytes, raw: bool): Scanned
    decreases |b|
  {
    match ScanLine(b, raw)
    case EndOfBlock(n) => Scanned([], Whole(n))
    case Bad(e) => Scanned([], Failed(e))
    case Folded => Scanned([], Unfolded)
    case Field(k, v, n) =>
      FieldLength(b, raw);
      Behind(Pair(k, v), n, ScanAll(b[n..], raw))
  }

  lemma FieldLength(b: bytes, raw: bool)
    ensures ScanLine(b, raw).Field? ==> 0 < ScanLine(b, raw).len <= |b|
  {
    hide GoesOn, TrimEnd, NormalKey, EmptyLine;
  }

  // ---- Scanning undoes printing -----------------------------------------------------------

  /** A single-line field without outer spaces and with a normalized key. */
  ghost predicate Printable(p: Pair, raw: bool) {
    && COLON !in p.key && LF !in p.key && LF !in p.value
    && NormalKey(p.key, raw) == p.key
    && (p.value != [] ==> p.value[0] != SPACE && p.value[|p.value| - 1] != SPACE)
  }

  lemma TrimPrinted(v: bytes)
    requires v != [] ==> v[|v| - 1] != SPACE
    ensures TrimEnd(v + [CR]) == v
  {
    assert (v + [CR])[..|v|] == v;
  }

  /** A printed line with something behind it, cut at its colon and at its end. */
  lemma CutLine(p: Pair, tail: bytes)
    ensures var b := HeaderLine(p) + tail;
            && b == p.key + ([COLON] + ([SPACE] + (p.value + (CRLF + tail))))
            && b == (p.key + [COLON, SPACE] + p.value + [CR]) + ([LF] + tail)
  {
  }

  lemma NotEmptyLine(key: bytes, rest: bytes)
    requires LF !in key && |rest| >= 2 && rest[0] == COLON && rest[1] != LF
    ensures EmptyLine(key + rest) == 0
  {
    assert forall i :: 0 <= i < 2 ==> (key + rest)[i] == if i < |key| then key[i] else rest[i - |key|];
  }

  /** The pieces of a printed line. */
  lemma PrintedParts(p: Pair, tail: bytes)
    requires COLON !in p.key && LF !in p.key && LF !in p.value
    requires p.value != [] ==> p.value[0] != SPACE
    ensures var b := HeaderLine(p) + tail;
            && EmptyLine(b) == 0
            && IndexByte(b, COLON) == |p.key| < IndexByte(b, LF)
            && b[..|p.key|] == p.key
            && b[|p.key| + 1..] == [SPACE] + (p.value + (CRLF + tail))
  {
    var v := [SPACE] + (p.value + (CRLF + tail));
    var front := p.key + [COLON, SPACE] + p.value + [CR];
    CutLine(p, tail);
    hide HeaderLine, IndexByte, EmptyLine;
    NotEmptyLine(p.key, [COLON] + v);
    FirstIn(p.key, COLON, [COLON] + v);
    FirstIn(front, LF, [LF] + tail);
  }

  lemma PrintedValue(v: bytes, tail: bytes)
    requires LF !in v && (v != [] ==> v[0] != SPACE)
    ensures Spaces([SPACE] + (v + (CRLF + tail))) == 1
    ensures var r := v + (CRLF + tail);
            IndexByte(r, LF) == |v| + 1 && r[..|v| + 1] == v + [CR] && r[|v| + 2..] == tail
  {
    hide Spaces, IndexByte;
    var r, front, back := v + (CRLF + tail), v + [CR], [LF] + tail;
    assert ([SPACE] + r)[1] == r[0] == (if v != [] then v[0] else CR);
    SpacesCount([SPACE] + r, 1);
    assert r == front + back;
    FirstIn(front, LF, back);
    assert r[..|front|] == front && r[|front| + 1..] == back[1..];
  }

  /** A printed line is scanned as the field it was printed from, if its value does not go on behind it. */
  lemma ScanPrintedLine(p: Pair, tail: bytes, raw: bool)
    requires Printable(p, raw) && !GoesOn(tail)
    ensures ScanLine(HeaderLine(p) + tail, raw) == Field(p.key, p.value, |HeaderLine(p)|)
    ensures (HeaderLine(p) + tail)[|HeaderLine(p)|..] == tail
  {
    hide GoesOn, TrimEnd, NormalKey, Spaces, IndexByte, EmptyLine;
    var b, n := HeaderLine(p) + tail, |p.key|;
    PrintedParts(p, tail);
    PrintedValue(p.value, tail);
    TrimPrinted(p.value);
    var r := p.value + (CRLF + tail);
    assert b[n + 2..] == b[n + 1..][1..] == r;
    ScanWithKey(b, raw, n, n + 2, r);
  }

  ghost predicate Blanks(s: bytes) {
    forall i :: 0 <= i < |s| ==> s[i] == 32
  }

  lemma {:induction false} TrimBlanks(v: bytes, trail: bytes)
    requires Blanks(trail) && (v != [] ==> v[|v| - 1] != 32)
    ensures TrimSpaces(v + trail) == v
  {
    var s := v + trail;
    if trail == [] {
      assert s == v;
    } else {
      var t := trail[..|trail| - 1];
      assert s[..|s| - 1] == v + t && s[|s| - 1] == trail[|trail| - 1];
      TrimBlanks(v, t);
    }
  }

  /** A value ends before the spaces and the one carriage return at the end of its line. */
  lemma TrimLine(v: bytes, trail: bytes, cr: bool)
    requires Blanks(trail) && (v != [] ==> v[|v| - 1] != 32)
    requires !cr && trail == [] && v != [] ==> v[|v| - 1] != 13
    ensures TrimEnd(v + trail + if cr then [13] else []) == v
  {
    var s := v + trail + if cr then [13] else [];
    TrimBlanks(v, trail);
    if cr {
      assert s[..|s| - 1] == v + trail && s[|s| - 1] == 13;
    } else {
      assert s == v + trail;
      assert s != [] ==> s[|s| - 1] == if trail != [] then trail[|trail| - 1] else v[|v| - 1];
    }
  }

  /** A line that starts with a space or a tab continues the value before it, unless it has a colon. */
  lemma ContinuesWithout(c: byte, t: bytes, rest: bytes)
    requires 10 !in t
    ensures c in [32, 9] ==> (GoesOn([c] + t + [10] + rest) <==> 58 !in t)
    ensures rest == [] || rest[0] !in [32, 9] ==> !GoesOn(rest)
  {
    var b := [c] + t + [10] + rest;
    if c in [32, 9] {
      IndexByteConcat([c] + t, LF, rest);
      assert b[..|t| + 1] == [c] + t;
    }
  }

  lemma AnyLineCut(key: bytes, lead: bytes, text: bytes, rest: bytes)
    ensures var b := key + [58] + lead + text + [10] + rest;
      && b == key + ([58] + (lead + (text + ([10] + rest))))
      && b == (key + [58] + lead + text) + ([10] + rest)
      && b[|key| + 1..] == lead + (text + ([10] + rest))
      && b[|key| + 1 + |lead|..] == text + ([10] + rest)
  {
  }

  lemma ScanPieces(b: bytes, key: bytes, m: nat, r: bytes, text: bytes, rest: bytes, raw: bool)
    requires EmptyLine(b) == 0 && |key| == IndexByte(b, COLON) < IndexByte(b, LF)
    requires m == |key| + 1 + Spaces(b[|key| + 1..]) && m <= |b| && r == b[m..] && IndexByte(r, LF) == |text|
    requires b[..|key|] == key && r[..|text|] == text && r[|text| + 1..] == rest && !GoesOn(rest)
    ensures ScanLine(b, raw) == Field(NormalKey(key, raw), TrimEnd(text), m + |text| + 1)
  {
    hide GoesOn, TrimEnd, NormalKey, Spaces, IndexByte, EmptyLine;
    ScanWithKey(b, raw, |key|, m, r);
  }

  lemma NotEmptyStart(key: bytes, rest: bytes)
    requires LF !in key && rest != [] && rest[0] == 58
    ensures EmptyLine(key + rest) == 0
  {
    var b := key + rest;
    assert |key| >= 1 ==> b[0] == key[0];
    assert |key| >= 2 ==> b[1] == key[1];
    assert |key| == 1 ==> b[1] == rest[0];
    assert |key| == 0 ==> b[0] == rest[0];
  }

  lemma AnyLineFinds(key: bytes, lead: bytes, text: bytes, rest: bytes)
    requires 58 !in key && 10 !in key && 10 !in text && Blanks(lead)
    ensures var b := key + [58] + lead + text + [10] + rest;
      && EmptyLine(b) == 0 && b[..|key|] == key
      && IndexByte(b, COLON) == |key| && IndexByte(b, LF) == |key| + 1 + |lead| + |text|
  {
    var behind := lead + (text + ([10] + rest));
    AnyLineCut(key, lead, text, rest);
    hide IndexByte;
    FirstIn(key, COLON, [58] + behind);
    FirstIn(key + [58] + lead + text, LF, [10] + rest);
    NotEmptyStart(key, [58] + behind);
  }

  lemma AnyLineValue(lead: bytes, text: bytes, rest: bytes)
    requires 10 !in text && Blanks(lead) && (text != [] ==> text[0] != 32)
    ensures var r := text + ([10] + rest);
      && Spaces(lead + r) == |lead| && IndexByte(r, LF) == |text| && r[..|text|] == text && r[|text| + 1..] == rest
  {
    hide Spaces, IndexByte;
    var r := text + ([10] + rest);
    FirstIn(text, LF, [10] + rest);
    assert (lead + r)[|lead|] == r[0];
    SpacesCount(lead + r, |lead|);
  }

  lemma ScanText(key: bytes, lead: bytes, text: bytes, rest: bytes, raw: bool)
    requires 58 !in key && 10 !in key && 10 !in text && Blanks(lead) && !GoesOn(rest)
    requires text != [] ==> text[0] != 32
    ensures var line := key + [58] + lead + text + [10];
      ScanLine(line + rest, raw) == Field(NormalKey(key, raw), TrimEnd(text), |line|)
  {
    hide ScanLine, GoesOn, TrimEnd, NormalKey, Spaces, IndexByte, EmptyLine, Blanks;
    AnyLineFinds(key, lead, text, rest);
    AnyLineValue(lead, text, rest);
    AnyLineCut(key, lead, text, rest);
    var b := key + [58] + lead + text + [10] + rest;
    ScanPieces(b, key, |key| + 1 + |lead|, text + ([10] + rest), text, rest, raw);
  }

  /**
   * Any line of a field: the spaces around the value are dropped, and it ends with CR LF or a bare LF.
   */
  lemma ScanAnyLine(key: bytes, lead: bytes, v: bytes, trail: bytes, cr: bool, rest: bytes, raw: bool)
    requires 58 !in key && 10 !in key && 10 !in v && Blanks(lead) && Blanks(trail) && !GoesOn(rest)
    requires if v == [] then trail == [] else v[0] != 32 && v[|v| - 1] != 32
    requires !cr && trail == [] && v != [] ==> v[|v| - 1] != 13
    ensures var line := key + [58] + lead + (v + trail + if cr then [13] else []) + [10];
      ScanLine(line + rest, raw) == Field(NormalKey(key, raw), v, |line|)
  {
    var text := v + trail + if cr then [13] else [];
    hide ScanLine, GoesOn, TrimEnd;
    TrimLine(v, trail, cr);
    ScanText(key, lead, text, rest, raw);
  }

  /** What follows a line in a printed block is a line of its own. */
  lemma NextLineStands(list: seq<Pair>, tail: bytes, raw: bool)
    requires list != [] ==> Printable(list[0], raw)
    ensures !GoesOn(Block(list) + tail)
  {
    var b := Block(list) + tail;
    if list == [] {
      assert b[0] == CR;
    } else {
      var rest := Block(list[1..]) + tail;
      Regroup(HeaderLine(list[0]), Block(list[1..]), tail);
      PrintedParts(list[0], rest);
      if BlankLine(b) > 0 {
        assert b[..BlankLine(b)][|list[0].key|] == COLON;
      }
    }
  }

  /** Scanning a printed block gives its fields back, in order, and uses up the block and no more. */
  lemma {:induction false} HeaderRoundTrip(list: seq<Pair>, tail: bytes, raw: bool)
    requires forall i :: 0 <= i < |list| ==> Printable(list[i], raw)
    ensures ScanAll(Block(list) + tail, raw) == Scanned(list, Whole(|Block(list)|))
    decreases |list|
  {
    hide ScanLine, GoesOn, Printable;
    if list == [] {
      assert EmptyLine(CRLF + tail) == 2;
      ScanEmpty(CRLF + tail, raw);
    } else {
      var rest := Block(list[1..]) + tail;
      Regroup(HeaderLine(list[0]), Block(list[1..]), tail);
      NextLineStands(list[1..], tail, raw);
      ScanPrintedLine(list[0], rest, raw);
      HeaderRoundTrip(list[1..], tail, raw);
      assert list == [list[0]] + list[1..];
    }
  }

  // ---- The scanner over a whole block -----------------------------------------------------

  /** Calls Next until it stops; the keys and values are the ones the scanner hands out. */
  method ScanBlock(s: HeaderScanner) returns (list: seq<Pair>, folded: bool)
    requires s.Valid() && s.err == NoError
    modifies s, s.buf
    ensures var r := ScanAll(old(s.buf[s.pos..]), s.raw);
            match r.ending
            case Whole(n) =>
              && list == r.list && !folded && s.err == NoError
              && s.hLen == old(s.hLen) + n && s.pos == old(s.pos) + n
            case Failed(e) => list == r.list && !folded && s.err == e
            case Unfolded => list == r.list && folded
  {
    hide ScanLine;
    list := [];
    ghost var all := ScanAll(s.buf[s.pos..], s.raw);
    ghost var used := 0;
    while true
      invariant s.Valid() && s.err == NoError
      invariant s.pos == old(s.pos) + used && s.hLen == old(s.hLen) + used
      invariant all == After(list, used, ScanAll(s.buf[s.pos..], s.raw))
      decreases s.buf.Length - s.pos
    {
      ghost var b := s.buf[s.pos..];
      FieldLength(b, s.raw);
      var ok;
      ok, folded := s.Next();
      if !ok || folded {
        return list, ok;
      }
      ghost var n := ScanLine(b, s.raw).len;
      AfterBehind(list, used, Pair(s.key, s.value), n, ScanAll(b[n..], s.raw));
      list := list + [Pair(s.key, s.value)];
      used := used + n;
    }
  }

  function After(list: seq<Pair>, n: nat, s: Scanned): Scanned {
    Scanned(list + s.list, if s.ending.Whole? then Whole(n + s.ending.len) else s.ending)
  }

  lemma AfterBehind(list: seq<Pair>, used: nat, p: Pair, n: nat, s: Scanned)
    ensures After(list, used, Behind(p, n, s)) == After(list + [p], used + n, s)
  {
    assert list + ([p] + s.list) == list + [p] + s.list;
  }
}
