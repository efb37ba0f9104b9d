/**
 * How a request's header fields decide the length of its body (header.go, parseHeaders), over the
 * fields in the order in which the scanner of Header.dfy gives them.
 */
module Framing {
  import opened Bytes
  import opened Numbers

  datatype Field = Field(key: bytes, value: bytes)

  const CONTENT_LENGTH: bytes := [67, 111, 110, 116, 101, 110, 116, 45, 76, 101, 110, 103, 116, 104]
  const TRANSFER_ENCODING: bytes := [84, 114, 97, 110, 115, 102, 101, 114, 45, 69, 110, 99, 111, 100, 105, 110, 103]
  const IDENTITY: bytes := [105, 100, 101, 110, 116, 105, 116, 121]

  const CHUNKED := -1
  const NOT_GIVEN := -2

  /** c | 0x20 */
  function Fold(c: byte): byte {
    if c / 32 % 2 == 1 then c else c + 32
  }

  /** caseInsensitiveCompare */
  predicate Same(a: bytes, b: bytes) {
    |a| == |b| && forall i :: 0 <= i < |a| ==> Fold(a[i]) == Fold(b[i])
  }

  /** Two bytes count as the same letter when they are equal but for bit 5. */
  lemma SameIs(a: bytes, b: bytes)
    ensures Same(a, b) <==> |a| == |b| && forall i :: 0 <= i < |a| ==> a[i] / 64 == b[i] / 64 && a[i] % 32 == b[i] % 32
  {
    forall i | 0 <= i < |a| && i < |b|
      ensures Fold(a[i]) == Fold(b[i]) <==> a[i] / 64 == b[i] / 64 && a[i] % 32 == b[i] % 32
    {
      FoldIs(a[i], b[i]);
    }
    hide Fold;
  }

  lemma FoldIs(a: byte, b: byte)
    ensures Fold(a) == Fold(b) <==> a / 64 == b / 64 && a % 32 == b % 32
  {
  }

  method CaseInsensitiveCompare(a: bytes, b: bytes) returns (same: bool)
    ensures same == Same(a, b)
  {
    if |a| != |b| {
      return false;
    }
    for i := 0 to |a|
      invariant forall j :: 0 <= j < i ==> Fold(a[j]) == Fold(b[j])
    {
      if Fold(a[i]) != Fold(b[i]) {
        return false;
      }
    }
    same := true;
  }

  /** A key with a space or tab in it is refused (section 3.2.4 of RFC 7230). */
  predicate BadKey(f: Field) {
    f.key != [] && (32 in f.key || 9 in f.key)
  }

  predicate GivesLength(f: Field) {
    f.key != [] && !BadKey(f) && Same(f.key, CONTENT_LENGTH)
  }

  /** Any transfer coding but identity counts as chunked. */
  predicate GivesChunks(f: Field) {
    f.key != [] && !BadKey(f) && Same(f.key, TRANSFER_ENCODING) && f.value != IDENTITY
  }

  /** The names of the two fields, in lower and in upper case; identity is not chunked, and anything else is. */
  lemma FieldNames(v: bytes)
    ensures GivesLength(Field([99, 111, 110, 116, 101, 110, 116, 45, 108, 101, 110, 103, 116, 104], v))
    ensures GivesLength(Field([67, 79, 78, 84, 69, 78, 84, 45, 76, 69, 78, 71, 84, 72], v))
    ensures GivesChunks(
      Field([116, 114, 97, 110, 115, 102, 101, 114, 45, 101, 110, 99, 111, 100, 105, 110, 103], v))
      <==> v != [105, 100, 101, 110, 116, 105, 116, 121]
    ensures forall key :: |key| != 14 ==> !GivesLength(Field(key, v))
    ensures forall key :: |key| != 17 ==> !GivesChunks(Field(key, v))
  {
    var l := [99, 111, 110, 116, 101, 110, 116, 45, 108, 101, 110, 103, 116, 104];
    var u := [67, 79, 78, 84, 69, 78, 84, 45, 76, 69, 78, 71, 84, 72];
    var t := [116, 114, 97, 110, 115, 102, 101, 114, 45, 101, 110, 99, 111, 100, 105, 110, 103];
    LowerLength(l);
    UpperLength(u);
    LowerEncoding(t);
    hide Same;
  }

  lemma LowerLength(l: bytes)
    requires l == [99, 111, 110, 116, 101, 110, 116, 45, 108, 101, 110, 103, 116, 104]
    ensures Same(l, CONTENT_LENGTH) && 32 !in l && 9 !in l
  {
  }

  lemma UpperLength(u: bytes)
    requires u == [67, 79, 78, 84, 69, 78, 84, 45, 76, 69, 78, 71, 84, 72]
    ensures Same(u, CONTENT_LENGTH) && 32 !in u && 9 !in u
  {
  }

  lemma LowerEncoding(t: bytes)
    requires t == [116, 114, 97, 110, 115, 102, 101, 114, 45, 101, 110, 99, 111, 100, 105, 110, 103]
    ensures Same(t, TRANSFER_ENCODING) && 32 !in t && 9 !in t
  {
  }

  /** parseContentLength: the whole value has to be a number. */
  function LengthOf(v: bytes): (int, bool) {
    var (n, used, err) := ParsedUintBuf(v);
    if err.UintOk? && used == |v| then (n, true) else (NOT_GIVEN, false)
  }

  lemma {:induction false} NotNegative(b: bytes, i: nat, v: int)
    requires i <= |b| && 0 <= v <= MAXINT
    ensures UintFrom(b, i, v).2.UintOk? ==> UintFrom(b, i, v).0 >= 0
    decreases |b| - i
  {
    if i < |b| && IsDigit(b[i]) {
      var vNew := Wrap(10 * v + (b[i] as int - 48));
      if vNew >= v {
        NotNegative(b, i + 1, vNew);
      }
    }
  }

  /** So a length is accepted exactly when all of it is digits and the overflow test catches none of them. */
  lemma LengthMeaning(v: bytes)
    ensures LengthOf(v) ==
              if v != [] && AllDigits(v) && (forall k :: 0 <= k < |v| ==> !Falls(v, k))
              then (Wrap(DecValue(v)), true) else (NOT_GIVEN, false)
  {
    var d := DigitRunExists(v);
    UintMeaning(v, d);
    hide Falls, Wrap, DecValue, ParsedUintBuf;
    assert d == |v| ==> v[..d] == v;
    assert d < |v| ==> !AllDigits(v);
    if k: nat :| k < d && Falls(v, k) {
      var first := FallsFirst(v, d, k);
    }
  }

  method ParseContentLength(v: bytes) returns (n: int, ok: bool)
    ensures ok == LengthOf(v).1 && (ok ==> n == LengthOf(v).0 >= 0)
  {
    if v != [] {
      NotNegative(v, 0, 0);
    }
    var used, err;
    n, used, err := ParseUintBuf(v);
    ok := err.UintOk? && used == |v|;
  }

  /** No field before this one announces chunks. */
  ghost predicate Unchunked(fields: seq<Field>, i: nat)
    requires i <= |fields|
  {
    forall j :: 0 <= j < i ==> !GivesChunks(fields[j])
  }

  /** A Content-Length that is looked at: once chunks are announced it is not any more. */
  ghost predicate Looked(fields: seq<Field>, i: nat)
    requires i < |fields|
  {
    GivesLength(fields[i]) && Unchunked(fields, i)
  }

  /** The first n fields have a key with a space, or a length that is looked at and is not a number. */
  ghost predicate Refused(fields: seq<Field>, n: nat)
    requires n <= |fields|
  {
    exists i :: 0 <= i < n &&
      (32 in fields[i].key || 9 in fields[i].key || (Looked(fields, i) && !LengthOf(fields[i].value).1))
  }

  /** Field i has the last length among the first n that is looked at. */
  ghost predicate LastLength(fields: seq<Field>, n: nat, i: nat)
    requires n <= |fields|
  {
    i < n && Looked(fields, i) && forall j :: i < j < n ==> !Looked(fields, j)
  }

  lemma LastMoves(fields: seq<Field>, n: nat)
    requires n < |fields|
    ensures forall i: nat :: LastLength(fields, n + 1, i) <==>
      if Looked(fields, n) then i == n else LastLength(fields, n, i)
    ensures Unchunked(fields, n + 1) <==> Unchunked(fields, n) && !GivesChunks(fields[n])
    ensures Refused(fields, n + 1) <==>
      || Refused(fields, n) || 32 in fields[n].key || 9 in fields[n].key
      || (Looked(fields, n) && !LengthOf(fields[n].value).1)
  {
    hide LengthOf;
    forall i: nat
      ensures LastLength(fields, n + 1, i) <==> if Looked(fields, n) then i == n else LastLength(fields, n, i)
    {
      hide Looked;
    }
  }

  /**
   * The loop of parseHeaders. Chunks win over every length, whatever the order; among lengths the
   * last one counts; a bad key is fatal anywhere, and a bad length only before chunks are announced.
   */
  method ParseHeaders(fields: seq<Field>) returns (contentLength: int, err: bool)
    ensures err <==> Refused(fields, |fields|)
    ensures !err ==> (contentLength == CHUNKED <==> !Unchunked(fields, |fields|))
    ensures !err && Unchunked(fields, |fields|) ==>
      forall i: nat :: LastLength(fields, |fields|, i) ==> contentLength == LengthOf(fields[i].value).0 >= 0
    ensures !err && Unchunked(fields, |fields|) && (forall i :: 0 <= i < |fields| ==> !GivesLength(fields[i])) ==>
      contentLength == NOT_GIVEN
  {
    contentLength, err := NOT_GIVEN, false;
    var n := 0;
    hide LengthOf;
    while n < |fields|
      invariant n <= |fields| && (err <==> Refused(fields, n))
      invariant contentLength == CHUNKED <==> !Unchunked(fields, n)
      invariant contentLength >= NOT_GIVEN
      invariant !err && Unchunked(fields, n) ==>
        forall i: nat :: LastLength(fields, n, i) ==> contentLength == LengthOf(fields[i].value).0 >= 0
      invariant !err && Unchunked(fields, n) && (forall i :: 0 <= i < n ==> !GivesLength(fields[i])) ==>
        contentLength == NOT_GIVEN
    {
      var f := fields[n];
      LastMoves(fields, n);
      n := n + 1;
      if f.key != [] {
        if 32 in f.key || 9 in f.key {
          err := true;
          continue;
        }
        var isLength := CaseInsensitiveCompare(f.key, CONTENT_LENGTH);
        if isLength {
          if contentLength != CHUNKED {
            var v, ok := ParseContentLength(f.value);
            contentLength := if ok then v else NOT_GIVEN;
            err := err || !ok;
          }
          continue;
        }
        var isEncoding := CaseInsensitiveCompare(f.key, TRANSFER_ENCODING);
        if isEncoding && f.value != IDENTITY {
          contentLength := CHUNKED;
        }
      }
    }
  }

  /** Without chunks a length that is given is looked at, and one of those is the last. */
  lemma {:induction false} LastExists(fields: seq<Field>, n: nat, k: nat) returns (i: nat)
    requires k < n <= |fields| && GivesLength(fields[k]) && Unchunked(fields, n)
    ensures LastLength(fields, n, i) && k <= i
  {
    assert Looked(fields, k);
    LastMoves(fields, n - 1);
    if Looked(fields, n - 1) {
      i := n - 1;
    } else {
      i := LastExists(fields, n - 1, k);
    }
  }

  lemma OneDigit(c: byte)
    requires IsDigit(c)
    ensures LengthOf([c]) == (c as int - 48, true)
  {
    assert UintFrom([c], 1, c as int - 48) == (c as int - 48, 1, UintOk);
  }

  /**
   * Section 3.3.3 of RFC 7230 has a request with two different lengths refused. Here any two of them
   * pass: the last one, k, is the result of ParseHeaders, and there is an m that says something else.
   */
  lemma DifferentLengths(fields: seq<Field>, i: nat, j: nat) returns (k: nat, m: nat)
    requires i < |fields| && j < |fields| && Looked(fields, i) && Looked(fields, j)
    requires LengthOf(fields[i].value).0 != LengthOf(fields[j].value).0
    requires !Refused(fields, |fields|) && Unchunked(fields, |fields|)
    ensures LastLength(fields, |fields|, k) && LengthOf(fields[k].value).1
    ensures m < k && Looked(fields, m) && LengthOf(fields[m].value).1
    ensures LengthOf(fields[m].value).0 != LengthOf(fields[k].value).0
  {
    hide LengthOf, GivesLength, GivesChunks, BadKey;
    k := LastExists(fields, |fields|, i);
    m := if LengthOf(fields[i].value).0 != LengthOf(fields[k].value).0 then i else j;
  }

  /** Two such fields: the lengths 5 and 6. */
  lemma TwoLengths()
    ensures var fields := [Field(CONTENT_LENGTH, [53]), Field(CONTENT_LENGTH, [54])];
      && !Refused(fields, 2) && Unchunked(fields, 2) && Looked(fields, 0) && Looked(fields, 1)
      && LengthOf(fields[0].value).0 == 5 && LengthOf(fields[1].value).0 == 6
  {
    var fields := [Field(CONTENT_LENGTH, [53]), Field(CONTENT_LENGTH, [54])];
    OneDigit(53);
    OneDigit(54);
    assert !Same(CONTENT_LENGTH, TRANSFER_ENCODING);
    assert GivesLength(fields[0]) && GivesLength(fields[1]);
    hide LengthOf;
  }

  /** Whether a bad length is fatal depends on where the chunks are announced. */
  lemma OrderMatters(f: Field, g: Field)
    requires GivesChunks(f) && GivesLength(g) && !LengthOf(g.value).1
    ensures Refused([g, f], 2) && !Refused([f, g], 2)
  {
    assert Looked([g, f], 0);
    assert !Looked([f, g], 1) by { assert GivesChunks([f, g][0]); }
    DifferentKeys(f, g);
    hide LengthOf, GivesChunks, GivesLength, BadKey;
  }

  lemma DifferentKeys(f: Field, g: Field)
    requires GivesChunks(f) && GivesLength(g)
    ensures !BadKey(f) && !BadKey(g) && !GivesLength(f)
  {
    assert |CONTENT_LENGTH| != |TRANSFER_ENCODING|;
  }
}
