/** Query arguments: a reusable list of slots, its parser and its printer. */
module Args {
  import opened Bytes
  import opened Escape

  datatype KV = KV(key: bytes, value: bytes, noValue: bool)

  // ---- What a query string means ----------------------------------------------------------

  /** The text up to the first '&', and what follows it. */
  function Cut(b: bytes): (r: (bytes, bytes))
    requires b != []
    ensures |r.1| < |b| && |r.0| <= |b|
  {
    var i := IndexByte(b, AMP);
    if i < 0 then (b, []) else (b[..i], b[i + 1..])
  }

  /** One argument: a key, and a value if there is a '='. */
  function ParseField(f: bytes): KV {
    var e := IndexByte(f, EQUALS);
    if e < 0 then KV(Unescape(f, true), [], true)
    else KV(Unescape(f[..e], true), Unescape(f[e + 1..], true), false)
  }

  function ParseAll(b: bytes): seq<KV>
    decreases |b|
  {
    if b == [] then [] else [ParseField(Cut(b).0)] + ParseAll(Cut(b).1)
  }

  predicate Blank(kv: KV) {
    kv.key == [] && kv.value == []
  }

  /** Arguments without key and value are dropped. */
  function Kept(list: seq<KV>): seq<KV> {
    if list == [] then []
    else (if Blank(list[0]) then [] else [list[0]]) + Kept(list[1..])
  }

  // ---- Printing ---------------------------------------------------------------------------

  function PrintKV(kv: KV): bytes {
    QuoteArg(kv.key) + (if kv.noValue then [] else [EQUALS] + QuoteArg(kv.value))
  }

  function Print(list: seq<KV>): bytes {
    if list == [] then []
    else if |list| == 1 then PrintKV(list[0])
    else PrintKV(list[0]) + ([AMP] + Print(list[1..]))
  }

  /** An argument as it is printed: one marked as having no value has none. */
  function Canon(kv: KV): KV {
    if kv.noValue then kv.(value := []) else kv
  }

  function CanonAll(list: seq<KV>): seq<KV> {
    if list == [] then [] else [Canon(list[0])] + CanonAll(list[1..])
  }

  // ---- Parsing undoes printing ------------------------------------------------------------

  lemma ParsePrintKV(kv: KV)
    ensures AMP !in PrintKV(kv) && ParseField(PrintKV(kv)) == Canon(kv)
  {
    QuoteArgSeparators(kv.key);
    QuoteArgSeparators(kv.value);
    UnescapeQuoteArg(kv.key);
    UnescapeQuoteArg(kv.value);
    var f, q := PrintKV(kv), QuoteArg(kv.key);
    if kv.noValue {
      assert f == q;
    } else {
      assert f == q + [EQUALS] + QuoteArg(kv.value);
      IndexByteConcat(q, EQUALS, QuoteArg(kv.value));
      assert f[..|q|] == q && f[|q| + 1..] == QuoteArg(kv.value);
    }
  }

  lemma CutPrinted(f: bytes, rest: bytes)
    requires AMP !in f
    ensures Cut(f + ([AMP] + rest)) == (f, rest)
    ensures f != [] ==> Cut(f) == (f, [])
  {
    Regroup(f, [AMP], rest);
    IndexByteConcat(f, AMP, rest);
    assert (f + [AMP] + rest)[..|f|] == f && (f + [AMP] + rest)[|f| + 1..] == rest;
  }

  /** Parsing a printed list gives it back, in order, except for the arguments that are blank. */
  lemma {:induction false} QueryRoundTrip(list: seq<KV>)
    ensures Kept(ParseAll(Print(list))) == Kept(CanonAll(list))
  {
    hide PrintKV, ParseField, Cut;
    if list != [] {
      var f := PrintKV(list[0]);
      ParsePrintKV(list[0]);
      if |list| == 1 {
        CutPrinted(f, []);
        BlankPrint(list[0]);
        assert list[1..] == [];
        if f != [] {
          assert ParseAll(f) == [ParseField(f)] + ParseAll([]);
        }
      } else {
        QueryRoundTrip(list[1..]);
        CutPrinted(f, Print(list[1..]));
      }
    }
  }

  lemma BlankPrint(kv: KV)
    ensures PrintKV(kv) == [] ==> Blank(Canon(kv))
  {
    if kv.key != [] {
      assert QuoteArg(kv.key) != [];
    }
  }

  // ---- What is kept, field by field ---------------------------------------------------------

  lemma ParseNothing()
    ensures Kept(ParseAll([])) == []
  {
  }

  lemma EmptyField()
    ensures ParseField([]) == KV([], [], true)
  {
  }

  lemma FirstField(f: bytes, rest: bytes)
    requires AMP !in f
    ensures var kv := ParseField(f); var one := if Blank(kv) then [] else [kv];
      && Kept(ParseAll(f + ([AMP] + rest))) == one + Kept(ParseAll(rest))
      && Kept(ParseAll(f)) == one
  {
    hide ParseField, Cut, Blank;
    var kv, b := ParseField(f), f + ([AMP] + rest);
    CutPrinted(f, rest);
    assert ParseAll(b) == [kv] + ParseAll(rest);
    if f == [] {
      EmptyField();
      assert Blank(kv) by { BlankField(); }
    } else {
      assert ParseAll(f) == [kv] + ParseAll([]);
    }
  }

  lemma BlankField()
    ensures Blank(KV([], [], true))
  {
  }

  /** What stands on the two sides of an ampersand is parsed by itself. */
  lemma {:induction false} ParseConcat(x: bytes, y: bytes)
    ensures Kept(ParseAll(x + [38] + y)) == Kept(ParseAll(x)) + Kept(ParseAll(y))
    ensures Kept(ParseAll([])) == []
    decreases |x|
  {
    hide ParseField, ParseAll, Kept, Blank;
    ParseNothing();
    var b := x + [AMP] + y;
    assert b == x + ([AMP] + y);
    if AMP !in x {
      FirstField(x, y);
    } else {
      var i := IndexByte(x, AMP);
      IndexByteFirst(x, AMP);
      var f, rest := x[..i], x[i + 1..];
      var more := rest + [AMP] + y;
      assert x == f + ([AMP] + rest);
      assert b == f + ([AMP] + more);
      FirstField(f, rest);
      FirstField(f, more);
      ParseConcat(rest, y);
      var p, q, r := Kept(ParseAll(f)), Kept(ParseAll(rest)), Kept(ParseAll(y));
      assert p + (q + r) == p + q + r;
    }
  }

  /** A field with an equals sign is a key and a value, cut at the first one, unless both are empty. */
  lemma ParseKeyValue(k: bytes, v: bytes)
    requires 38 !in k && 38 !in v && 61 !in k
    ensures Kept(ParseAll(k + [61] + v)) ==
      if k == [] && v == [] then [] else [KV(Unescape(k, true), Unescape(v, true), false)]
  {
    var f := k + [EQUALS] + v;
    IndexByteConcat(k, EQUALS, v);
    assert f[..|k|] == k && f[|k| + 1..] == v;
    CutPrinted(f, []);
    assert ParseAll(f) == [ParseField(f)] + ParseAll([]);
    UnescapeSome(k, true);
    UnescapeSome(v, true);
  }

  /** One without is a key, marked as having no value, unless it is empty. */
  lemma ParseKey(k: bytes)
    requires 38 !in k && 61 !in k
    ensures Kept(ParseAll(k)) == if k == [] then [] else [KV(Unescape(k, true), [], true)]
  {
    if k != [] {
      CutPrinted(k, []);
      assert ParseAll(k) == [ParseField(k)] + ParseAll([]);
      UnescapeSome(k, true);
    }
  }

  /** A parsed list has no argument without key and value. */
  lemma {:induction false} NoneBlank(list: seq<KV>)
    ensures forall kv :: kv in Kept(list) ==> kv in list && (kv.key != [] || kv.value != [])
    ensures forall kv :: kv in list && (kv.key != [] || kv.value != []) ==> kv in Kept(list)
  {
    if list != [] {
      NoneBlank(list[1..]);
    }
  }

  /** Printing and parsing loses nothing at all when every argument has a key, or a value that is printed. */
  lemma {:induction false} WholeRoundTrip(list: seq<KV>)
    requires forall i :: 0 <= i < |list| ==> list[i].key != [] || (!list[i].noValue && list[i].value != [])
    ensures var back := Kept(ParseAll(Print(list)));
      && |back| == |list|
      && forall i :: 0 <= i < |list| ==>
        back[i] == KV(list[i].key, if list[i].noValue then [] else list[i].value, list[i].noValue)
  {
    QueryRoundTrip(list);
    KeepsAll(list);
  }

  lemma {:induction false} KeepsAll(list: seq<KV>)
    requires forall i :: 0 <= i < |list| ==> list[i].key != [] || (!list[i].noValue && list[i].value != [])
    ensures var back := Kept(CanonAll(list));
      && |back| == |list|
      && forall i :: 0 <= i < |list| ==>
        back[i] == KV(list[i].key, if list[i].noValue then [] else list[i].value, list[i].noValue)
  {
    if list != [] {
      KeepsAll(list[1..]);
      assert CanonAll(list)[1..] == CanonAll(list[1..]);
    }
  }

  // ---- The scanner ------------------------------------------------------------------------

  /** Where the scanner stands in s.b: the bytes before i, and the key if a '=' was among them. */
  ghost predicate Scanned(b: bytes, i: nat, isKey: bool, k: nat) {
    && i <= |b| && AMP !in b[..i]
    && (isKey ==> EQUALS !in b[..i])
    && (!isKey ==> 0 < k <= i && b[k - 1] == EQUALS && EQUALS !in b[..k - 1])
  }

  lemma ScanStep(b: bytes, i: nat, isKey: bool, k: nat)
    requires Scanned(b, i, isKey, k) && i < |b| && b[i] != AMP
    ensures Scanned(b, i + 1, if b[i] == EQUALS then false else isKey, if isKey && b[i] == EQUALS then i + 1 else k)
  {
    assert b[..i + 1] == b[..i] + [b[i]];
  }

  /** What the scan found is the first field, cut at its first '='. */
  lemma ScanDone(b: bytes, i: nat, isKey: bool, k: nat)
    requires b != [] && Scanned(b, i, isKey, k) && (i == |b| || b[i] == AMP)
    ensures Cut(b) == (b[..i], if i == |b| then [] else b[i + 1..])
    ensures ParseField(b[..i]) == if isKey then KV(Unescape(b[..i], true), [], true)
                                  else KV(Unescape(b[..k - 1], true), Unescape(b[k..i], true), false)
  {
    hide Unescape;
    var f := b[..i];
    if i < |b| {
      assert b == f + [AMP] + b[i + 1..];
      IndexByteConcat(f, AMP, b[i + 1..]);
    } else {
      assert f == b;
    }
    if !isKey {
      assert f == b[..k - 1] + [EQUALS] + b[k..i];
      IndexByteConcat(b[..k - 1], EQUALS, b[k..i]);
      assert f[..k - 1] == b[..k - 1] && f[k..] == b[k..i];
    }
  }

  class ArgsScanner {
    var b: bytes

    constructor (b: bytes)
      ensures this.b == b
    {
      this.b := b;
    }

    /** Fills a slot, whatever it held, with the next argument. */
    method Next(slot: KV) returns (ok: bool, kv: KV)
      modifies this
      ensures ok == (old(b) != [])
      ensures ok ==> kv == ParseField(Cut(old(b)).0) && b == Cut(old(b)).1
      ensures !ok ==> kv == slot && b == old(b)
    {
      hide Unescape, Cut, ParseField;
      kv := slot;
      if |b| == 0 {
        return false, kv;
      }
      kv := kv.(noValue := false);
      var isKey, k := true, 0;
      var i := 0;
      while i < |b|
        invariant i <= |b| && b == old(b) && Scanned(b, i, isKey, k)
        invariant !isKey ==> kv.key == Unescape(b[..k - 1], true)
        invariant !kv.noValue
      {
        var c := b[i];
        if c == AMP {
          ScanDone(b, i, isKey, k);
          if isKey {
            var key := DecodeAppend([], b[..i], true);
            kv := KV(key, [], true);
          } else {
            var value := DecodeAppend([], b[k..i], true);
            kv := kv.(value := value);
          }
          b := b[i + 1..];
          return true, kv;
        }
        ScanStep(b, i, isKey, k);
        if c == EQUALS && isKey {
          isKey := false;
          var key := DecodeAppend([], b[..i], true);
          kv := kv.(key := key);
          k := i + 1;
        }
        i := i + 1;
      }
      ScanDone(b, i, isKey, k);
      assert b[..i] == b;
      if isKey {
        var key := DecodeAppend([], b, true);
        kv := KV(key, [], true);
      } else {
        var value := DecodeAppend([], b[k..], true);
        kv := kv.(value := value);
      }
      b := [];
      ok := true;
    }
  }

  // ---- The list ---------------------------------------------------------------------------

  function Without(list: seq<KV>, key: bytes): seq<KV> {
    if list == [] then [] else (if list[0].key == key then [] else [list[0]]) + Without(list[1..], key)
  }

  /** Replaces the value of the first argument with the key, or adds one at the end. */
  function SetFirst(list: seq<KV>, kv: KV): seq<KV> {
    if list == [] then [kv]
    else if list[0].key == kv.key then [kv] + list[1..]
    else [list[0]] + SetFirst(list[1..], kv)
  }

  datatype Found = Missing | Found(kv: KV)

  /** The first argument with the key. */
  function Find(list: seq<KV>, key: bytes): Found {
    if list == [] then Missing else if list[0].key == key then Found(list[0]) else Find(list[1..], key)
  }

  /** A set is what a lookup then finds; lookups under other keys, and all other arguments, are as before. */
  lemma {:induction false} SetThenFind(list: seq<KV>, kv: KV, key: bytes)
    ensures Find(SetFirst(list, kv), kv.key) == Found(kv)
    ensures key != kv.key ==> Find(SetFirst(list, kv), key) == Find(list, key)
    ensures Without(SetFirst(list, kv), kv.key) == Without(list, kv.key)
  {
    var r := SetFirst(list, kv);
    if list == [] {
      assert r[1..] == [];
    } else if list[0].key == kv.key {
      assert r[1..] == list[1..];
    } else {
      SetThenFind(list[1..], kv, key);
      assert r[1..] == SetFirst(list[1..], kv);
    }
  }

  /** A deleted key is found no more, and other keys as before. */
  lemma {:induction false} DeleteThenFind(list: seq<KV>, key: bytes, other: bytes)
    ensures Find(Without(list, key), key) == Missing
    ensures other != key ==> Find(Without(list, key), other) == Find(list, other)
  {
    if list != [] {
      DeleteThenFind(list[1..], key, other);
      assert [] + Without(list[1..], key) == Without(list[1..], key);
      assert list[0].key != key ==> Without(list, key)[1..] == Without(list[1..], key);
    }
  }

  /** By position: the first argument with the key is found and replaced in its place, and a new one comes last. */
  lemma {:induction false} FirstWithKey(list: seq<KV>, kv: KV, i: nat)
    requires i <= |list| && (forall j :: 0 <= j < i ==> list[j].key != kv.key)
    ensures i == |list| ==> SetFirst(list, kv) == list + [kv] && Find(list, kv.key) == Missing
    ensures i < |list| && list[i].key == kv.key ==>
              SetFirst(list, kv) == list[i := kv] && Find(list, kv.key) == Found(list[i])
  {
    if 0 < i {
      FirstWithKey(list[1..], kv, i - 1);
      assert list == [list[0]] + list[1..];
    }
  }

  /** Deleting takes out the arguments with the key and keeps the order of the others. */
  lemma {:induction false} WithoutConcat(a: seq<KV>, b: seq<KV>, kv: KV, key: bytes)
    ensures Without(a + b, key) == Without(a, key) + Without(b, key)
    ensures Without([kv], key) == (if kv.key == key then [] else [kv]) && Without([], key) == []
  {
    assert [kv][1..] == [];
    if a == [] {
      assert a + b == b;
    } else {
      WithoutConcat(a[1..], b, kv, key);
      assert (a + b)[1..] == a[1..] + b;
    }
  }

  lemma WithoutStep(c: seq<KV>, i: nat, key: bytes)
    requires i < |c|
    ensures Without(c[i..], key) == (if c[i].key == key then [] else [c[i]]) + Without(c[i + 1..], key)
  {
    assert c[i..][1..] == c[i + 1..];
  }

  lemma SetFirstStep(c: seq<KV>, i: nat, kv: KV)
    requires i < |c|
    ensures SetFirst(c[i..], kv) == if c[i].key == kv.key then [kv] + c[i + 1..] else [c[i]] + SetFirst(c[i + 1..], kv)
  {
    assert c[i..][1..] == c[i + 1..];
  }

  lemma SetFirstNone(kv: KV)
    ensures SetFirst([], kv) == [kv]
  {
  }

  lemma ParseStep(b: bytes)
    requires b != []
    ensures var kv := ParseField(Cut(b).0);
            Kept(ParseAll(b)) == (if Blank(kv) then [] else [kv]) + Kept(ParseAll(Cut(b).1))
  {
    hide ParseField, Cut;
    var kv := ParseField(Cut(b).0);
    assert ParseAll(b)[1..] == ParseAll(Cut(b).1);
  }

  lemma PrintStep(list: seq<KV>, i: nat)
    requires i < |list|
    ensures Print(list[i..]) == PrintKV(list[i]) + (if i + 1 < |list| then [AMP] + Print(list[i + 1..]) else [])
  {
    hide PrintKV;
    assert list[i..][1..] == list[i + 1..];
  }

  method AppendKV(dst: bytes, kv: KV) returns (r: bytes)
    ensures r == dst + PrintKV(kv)
  {
    r := AppendQuotedArg(dst, kv.key);
    if !kv.noValue {
      r := r + [EQUALS];
      if |kv.value| > 0 {
        r := AppendQuotedArg(r, kv.value);
      }
    }
  }

  lemma PrintNothing()
    ensures Print([]) == []
  {
  }

  lemma NoValueField(f: bytes)
    ensures ParseField(f).noValue ==> ParseField(f).value == []
  {
  }

  lemma WithoutNone(key: bytes)
    ensures Without([], key) == []
  {
  }

  lemma RotateSlots(s: seq<KV>, i: nat, n: nat)
    requires i < n <= |s|
    ensures multiset(s[..i] + s[i + 1..n] + [s[i]] + s[n..]) == multiset(s)
  {
    assert s == s[..i] + [s[i]] + s[i + 1..n] + s[n..];
  }

  lemma Shift(c: seq<KV>, i: nat, rest: seq<KV>)
    requires i < |c|
    ensures c[..i] + ([c[i]] + rest) == c[..i + 1] + rest
  {
  }

  /**
   * The slots args[:n] with the ones behind them, which keep their buffers for reuse. An argument
   * marked as having no value has none.
   */
  class Args {
    var slots: seq<KV>
    var n: nat

    ghost predicate Valid()
      reads this
    {
      n <= |slots| && forall i :: 0 <= i < n ==> slots[i].noValue ==> slots[i].value == []
    }

    ghost function Contents(): seq<KV>
      requires Valid()
      reads this
    {
      slots[..n]
    }

    constructor ()
      ensures Valid() && Contents() == []
    {
      slots, n := [], 0;
    }

    method Reset()
      requires Valid()
      modifies this
      ensures Valid() && Contents() == [] && slots == old(slots)
    {
      n := 0;
    }

    /** allocArg: one more slot, with whatever it held. */
    method AllocArg()
      requires n <= |slots|
      modifies this
      ensures n == old(n) + 1 <= |slots| && slots[..old(n)] == old(slots[..n])
      ensures old(slots) <= slots
    {
      if |slots| == n {
        slots := slots + [KV([], [], false)];
      }
      n := n + 1;
    }

    method AppendArg(key: bytes, value: bytes, noValue: bool)
      requires Valid()
      modifies this
      ensures Valid() && Contents() == old(Contents()) + [Canon(KV(key, value, noValue))]
    {
      AllocArg();
      slots := slots[n - 1 := KV(key, if noValue then [] else value, noValue)];
    }

    method PutSlot(i: nat, kv: KV)
      requires Valid() && i < n && (kv.noValue ==> kv.value == [])
      modifies this
      ensures Valid() && Contents() == old(Contents()[..i]) + ([kv] + old(Contents()[i + 1..]))
    {
      slots := slots[i := kv];
    }

    method SetArg(key: bytes, value: bytes, noValue: bool)
      requires Valid()
      modifies this
      ensures Valid() && Contents() == SetFirst(old(Contents()), Canon(KV(key, value, noValue)))
    {
      hide SetFirst;
      ghost var c, kv := Contents(), Canon(KV(key, value, noValue));
      var i := 0;
      assert c[..0] == [] && c[0..] == c;
      while i < n
        invariant i <= n && Valid() && Contents() == c
        invariant c[..i] + SetFirst(c[i..], kv) == SetFirst(c, kv)
      {
        SetFirstStep(c, i, kv);
        if slots[i].key == key {
          PutSlot(i, KV(slots[i].key, if noValue then [] else value, noValue));
          return;
        }
        Shift(c, i, SetFirst(c[i + 1..], kv));
        i := i + 1;
      }
      assert c[..n] == c && c[n..] == [];
      SetFirstNone(kv);
      AppendArg(key, value, noValue);
    }

    method Peek(key: bytes) returns (r: Found)
      requires Valid()
      ensures r == Find(Contents(), key)
    {
      for i := 0 to n
        invariant Find(Contents()[i..], key) == Find(Contents(), key)
      {
        assert Contents()[i..][1..] == Contents()[i + 1..];
        if slots[i].key == key {
          return Found(slots[i]);
        }
      }
      r := Missing;
    }

    /** delAllArgs: the slot of a removed argument goes behind the others, so that no slot is lost. */
    method DelAllArgs(key: bytes)
      requires Valid()
      modifies this
      ensures Valid() && Contents() == Without(old(Contents()), key)
      ensures multiset(slots) == multiset(old(slots))
    {
      hide Without;
      ghost var all := Without(Contents(), key);
      var i := 0;
      while i < n
        invariant i <= n && Valid() && multiset(slots) == multiset(old(slots))
        invariant Contents()[..i] + Without(Contents()[i..], key) == all
        decreases n - i
      {
        ghost var c := Contents();
        WithoutStep(c, i, key);
        if slots[i].key == key {
          DropSlot(i);
          assert Contents()[..i] == c[..i] && Contents()[i..] == c[i + 1..];
        } else {
          Shift(c, i, Without(c[i + 1..], key));
          i := i + 1;
        }
      }
      assert Contents()[..i] == Contents() && Contents()[i..] == [];
      WithoutNone(key);
    }

    /** copy(args[i:], args[i+1:]) with the removed slot put behind. */
    method DropSlot(i: nat)
      requires Valid() && i < n
      modifies this
      ensures Valid() && Contents() == old(Contents()[..i] + Contents()[i + 1..])
      ensures multiset(slots) == multiset(old(slots))
    {
      var tmp := slots[i];
      RotateSlots(slots, i, n);
      slots := slots[..i] + slots[i + 1..n] + [tmp] + slots[n..];
      n := n - 1;
      assert slots[..n] == old(slots)[..i] + old(slots)[i + 1..n + 1];
    }

    /** Stores an argument in the last slot and takes another slot unless the argument is blank. */
    method Keep(kv: KV)
      requires 0 < n <= |slots|
      modifies this
      ensures 0 < n <= |slots|
      ensures slots[..n - 1] == old(slots[..n - 1]) + (if Blank(kv) then [] else [kv])
    {
      slots := slots[n - 1 := kv];
      assert slots[..n - 1] == old(slots[..n - 1]);
      assert slots[..n] == slots[..n - 1] + [kv];
      if |kv.key| > 0 || |kv.value| > 0 {
        AllocArg();
      }
    }

    /** ParseBytes: slots are taken one by one and the last one is given back. */
    method ParseBytes(b: bytes)
      requires Valid()
      modifies this
      ensures Valid() && Contents() == Kept(ParseAll(b))
    {
      hide ParseAll, Kept, ParseField, Cut, Blank;
      ghost var all := Kept(ParseAll(b));
      Reset();
      var s := new ArgsScanner(b);
      AllocArg();
      ghost var list: seq<KV> := [];
      while true
        invariant 0 < n <= |slots| && fresh(s) && slots[..n - 1] == list
        invariant forall kv :: kv in list && kv.noValue ==> kv.value == []
        invariant list + Kept(ParseAll(s.b)) == all
        decreases |s.b|
      {
        if s.b == [] { ParseNothing(); } else { ParseStep(s.b); NoValueField(Cut(s.b).0); }
        var ok, kv := s.Next(slots[n - 1]);
        if !ok {
          break;
        }
        Keep(kv);
        list := list + (if Blank(kv) then [] else [kv]);
      }
      n := n - 1;
    }

    /** AppendBytes */
    method AppendBytes(dst: bytes) returns (r: bytes)
      requires Valid()
      ensures r == dst + Print(Contents())
    {
      hide Print, QuoteArg;
      r := dst;
      assert Contents()[0..] == Contents();
      for i := 0 to n
        invariant r + Print(Contents()[i..]) == dst + Print(Contents())
      {
        ghost var r0 := r;
        PrintStep(Contents(), i);
        r := AppendKV(r, slots[i]);
        if i + 1 < n {
          r := r + [AMP];
          Regroup(r0, PrintKV(slots[i]), [AMP] + Print(Contents()[i + 1..]));
          Regroup(r0 + PrintKV(slots[i]), [AMP], Print(Contents()[i + 1..]));
        } else {
          PrintNothing();
          assert Contents()[i + 1..] == [];
        }
      }
      PrintNothing();
      assert Contents()[n..] == [];
    }

    /** CopyTo: the slots of dst are reused. */
    method CopyTo(dst: Args)
      requires Valid() && dst.Valid() && dst != this
      modifies dst
      ensures dst.Valid() && dst.Contents() == Contents()
    {
      dst.Reset();
      var grown := dst.slots;
      while |grown| < n
        invariant |grown| >= |dst.slots|
      {
        grown := grown + [KV([], [], false)];
      }
      for i := 0 to n
        invariant n <= |grown| && grown[..i] == slots[..i]
      {
        grown := grown[i := KV(slots[i].key, if slots[i].noValue then [] else slots[i].value, slots[i].noValue)];
      }
      dst.slots, dst.n := grown, n;
    }
  }
}
