/**
 * The cache of open files behind a file handler, as a protocol (fs.go): the requests and the
 * cleaner, each step being one critical section of cacheLock or bigFilesLock, or one file operation.
 */
module FileCache {
  import opened Counting

  type File = nat
  type Req = nat
  type Handle = nat

  /** Which of the three caches, and the path. */
  datatype Key = Key(encoding: nat, path: seq<nat>)

  /** What a request is at. */
  datatype Phase =
    | Missed(key: Key)                      // not in the cache, about to open the file
    | Opened(key: Key, own: File)           // opened it, about to put it into the cache
    | Lost(own: File, file: File)           // somebody else did, so it has to release its own
    | Using(file: File)                     // counted as a reader, without a reader yet
    | NoneIdle(file: File)                  // found no idle handle of a big file
    | Reading(file: File)                   // through fsSmallFileReader
    | ReadingBig(file: File, handle: Handle)
    | Leaving(file: File)                   // before decReadersCount
    | Gone

  /** The second handles of big files. */
  datatype Handles = Handles(
    fileOf: map<Handle, File>,              // r.ff, for every handle ever opened
    idle: map<File, seq<Handle>>,           // ff.bigFiles
    unclosed: set<Handle>)

  /** What a file was opened for, and what a request asked for. */
  datatype Names = Names(openedFor: map<File, Key>, asked: map<Req, Key>)

  datatype State = State(
    cache: map<Key, File>,
    pending: set<File>,                     // left the cache with readers
    toRelease: set<File>,                   // the cleaner's, without readers
    released: multiset<File>,               // every call of Release
    files: set<File>,                       // every file ever opened
    big: set<File>,
    readersCount: map<File, int>,
    requests: map<Req, Phase>,
    handles: Handles,
    names: Names)

  datatype Act =
    | Hit(key: Key)
    | Miss(key: Key)
    | OpenFails
    | Open(file: File, isBig: bool)
    | Insert
    | ReleaseOwn
    | NotModified
    | NewSmall
    | NewBig                                // takes an idle handle, if there is one
    | OpenHandle(handle: Handle)
    | OpenHandleFails
    | CloseSmall
    | CloseBig(rewound: bool)
    | Decrement

  datatype Step =
    | Request(r: Req, act: Act)
    | Clean(stale: set<Key>)                // cleanCache, up to its releases
    | Release(f: File)

  function Idle(hs: Handles, f: File): seq<Handle> {
    if f in hs.idle then hs.idle[f] else []
  }

  /** bigFileReader takes the last idle handle. */
  function Pop(hs: Handles, f: File): Handles
    requires Idle(hs, f) != []
  {
    hs.(idle := hs.idle[f := Idle(hs, f)[..|Idle(hs, f)| - 1]])
  }

  /** The reader of a big file keeps its handle for the next one, or closes it. */
  function PutBack(hs: Handles, f: File, h: Handle, rewound: bool): Handles {
    if rewound then hs.(idle := hs.idle[f := Idle(hs, f) + [h]]) else hs.(unclosed := hs.unclosed - {h})
  }

  /** ff.Release() closes the idle handles. */
  function CloseIdle(hs: Handles, f: File): Handles {
    hs.(unclosed := hs.unclosed - set h | h in Idle(hs, f))
  }

  function Readers(s: State, f: File): int {
    if f in s.readersCount then s.readersCount[f] else 0
  }

  predicate ActingAt(s: State, p: Phase, act: Act) {
    match act
    case OpenFails => p.Missed?
    case Open(f, _) => p.Missed? && f !in s.files
    case Insert => p.Opened?
    case ReleaseOwn => p.Lost?
    case NotModified => p.Using?
    case NewSmall => p.Using? && p.file !in s.big
    case NewBig => p.Using? && p.file in s.big
    case OpenHandle(h) => p.NoneIdle? && h !in s.handles.fileOf
    case OpenHandleFails => p.NoneIdle?
    case CloseSmall => p.Reading?
    case CloseBig(_) => p.ReadingBig?
    case Decrement => p.Leaving?
    case _ => false
  }

  predicate Acting(s: State, r: Req, act: Act) {
    match act
    case Hit(key) => r !in s.requests && key in s.cache
    case Miss(key) => r !in s.requests && key !in s.cache
    case _ => r in s.requests && ActingAt(s, s.requests[r], act)
  }

  predicate Enabled(s: State, step: Step) {
    match step
    case Request(r, act) => Acting(s, r, act)
    case Clean(stale) => s.toRelease == {} && stale <= s.cache.Keys
    case Release(f) => f in s.toRelease
  }

  function Become(s: State, r: Req, p: Phase): State {
    s.(requests := s.requests[r := p])
  }

  function CountReader(s: State, f: File, change: int): State {
    s.(readersCount := s.readersCount[f := Readers(s, f) + change])
  }

  /** ff.Release(): the file and its idle handles are closed. */
  function ReleaseFile(s: State, f: File): State {
    s.(released := s.released + multiset{f},
       handles := CloseIdle(s.handles, f))
  }

  function Acted(s: State, r: Req, act: Act): State
    requires Acting(s, r, act)
  {
    var hs := s.handles;
    match act
    case Hit(key) =>
      Become(CountReader(s, s.cache[key], 1), r, Using(s.cache[key])).(
        names := s.names.(asked := s.names.asked[r := key]))
    case Miss(key) => Become(s, r, Missed(key)).(names := s.names.(asked := s.names.asked[r := key]))
    case OpenFails => Become(s, r, Gone)
    case Open(f, isBig) =>
      Become(s.(files := s.files + {f}, big := if isBig then s.big + {f} else s.big,
                names := s.names.(openedFor := s.names.openedFor[f := s.requests[r].key])),
             r, Opened(s.requests[r].key, f))
    case Insert =>
      var key, own := s.requests[r].key, s.requests[r].own;
      if key !in s.cache then Become(CountReader(s.(cache := s.cache[key := own]), own, 1), r, Using(own))
      else Become(CountReader(s, s.cache[key], 1), r, Lost(own, s.cache[key]))
    case ReleaseOwn => Become(ReleaseFile(s, s.requests[r].own), r, Using(s.requests[r].file))
    case NotModified => Become(s, r, Leaving(s.requests[r].file))
    case NewSmall => Become(s, r, Reading(s.requests[r].file))
    case NewBig =>
      var f := s.requests[r].file;
      var idle := Idle(hs, f);
      if idle == [] then Become(s, r, NoneIdle(f))
      else
        Become(s.(handles := Pop(hs, f)), r, ReadingBig(f, idle[|idle| - 1]))
    case OpenHandle(h) =>
      var f := s.requests[r].file;
      Become(s.(handles := hs.(fileOf := hs.fileOf[h := f], unclosed := hs.unclosed + {h})), r, ReadingBig(f, h))
    case OpenHandleFails => Become(s, r, Leaving(s.requests[r].file))
    case CloseSmall => Become(s, r, Leaving(s.requests[r].file))
    case CloseBig(rewound) =>
      var f, h := s.requests[r].file, s.requests[r].handle;
      Become(s.(handles := PutBack(hs, f, h, rewound)), r, Leaving(f))
    case Decrement => Become(CountReader(s, s.requests[r].file, -1), r, Gone)
  }

  function Stale(cache: map<Key, File>, stale: set<Key>): set<File>
    requires stale <= cache.Keys
  {
    set k | k in stale :: cache[k]
  }

  /** The cleaner drops the stale entries, and parks the files that are still being read. */
  function Cleaned(s: State, stale: set<Key>): State
    requires stale <= s.cache.Keys
  {
    var leaving := s.pending + Stale(s.cache, stale);
    var pending := set f | f in leaving && Readers(s, f) > 0;
    s.(cache := s.cache - stale, pending := pending, toRelease := leaving - pending)
  }

  function Next(s: State, step: Step): State
    requires Enabled(s, step)
  {
    match step
    case Request(r, act) => Acted(s, r, act)
    case Clean(stale) => Cleaned(s, stale)
    case Release(f) => ReleaseFile(s, f).(toRelease := s.toRelease - {f})
  }

  function Init(): State {
    State(map[], {}, {}, multiset{}, {}, {}, map[], map[], Handles(map[], map[], {}), Names(map[], map[]))
  }

  // ---- The invariant ----------------------------------------------------------------------

  /** A phase in which the request is counted as a reader of the file. */
  predicate Holds(p: Phase, f: File) {
    match p
    case Lost(_, file) => file == f
    case Using(file) => file == f
    case NoneIdle(file) => file == f
    case Reading(file) => file == f
    case ReadingBig(file, _) => file == f
    case Leaving(file) => file == f
    case _ => false
  }

  function Holders(requests: map<Req, Phase>, f: File): set<Req> {
    set r | r in requests && Holds(requests[r], f)
  }

  /** A phase in which the request alone knows the file it opened. */
  predicate Owns(p: Phase) {
    p.Opened? || p.Lost?
  }

  function Owned(requests: map<Req, Phase>): set<File> {
    set r | r in requests && Owns(requests[r]) :: requests[r].own
  }

  /** readersCount counts the requests that hold the file. */
  ghost predicate CountsExact(readersCount: map<File, int>, requests: map<Req, Phase>) {
    forall f :: (if f in readersCount then readersCount[f] else 0) == Size(Holders(requests, f))
  }

  function Places(cached: set<File>, owned: set<File>, pending: set<File>, toRelease: set<File>,
                  released: multiset<File>, f: File): nat
  {
    Count(f in cached) + Count(f in owned) + Count(f in pending) + Count(f in toRelease) + released[f]
  }

  /** A file is its opener's, in the cache, parked, about to be released, or released: one of these, and once. */
  ghost predicate OnePlace(cached: set<File>, owned: set<File>, pending: set<File>, toRelease: set<File>,
                           released: multiset<File>, files: set<File>) {
    forall f :: Places(cached, owned, pending, toRelease, released, f) == Count(f in files)
  }

  /** A file is in the cache under one key, and opened by one request. */
  ghost predicate OneName(cache: map<Key, File>, requests: map<Req, Phase>) {
    && Injective(cache)
    && (forall q, r :: q in requests && r in requests && q != r && Owns(requests[q]) && Owns(requests[r]) ==>
      requests[q].own != requests[r].own)
  }

  /** Who reads a file reads one that is in the cache or parked. */
  ghost predicate HeldAlive(requests: map<Req, Phase>, alive: set<File>) {
    forall r, f :: r in requests && Holds(requests[r], f) ==> f in alive
  }

  /** A handle is idle or one request's, and then it is open if its file is not released. */
  ghost predicate HandlesApart(hs: Handles, requests: map<Req, Phase>, released: multiset<File>) {
    && hs.unclosed <= hs.fileOf.Keys
    && (forall f :: Distinct(Idle(hs, f)))
    && (forall f, h :: h in Idle(hs, f) ==> h in hs.fileOf && hs.fileOf[h] == f && (f !in released ==> h in hs.unclosed))
    && (forall r :: r in requests && requests[r].ReadingBig? ==>
      var h := requests[r].handle;
      h in hs.unclosed && hs.fileOf[h] == requests[r].file && h !in Idle(hs, requests[r].file))
    && (forall q, r :: q in requests && r in requests && q != r && requests[q].ReadingBig? && requests[r].ReadingBig? ==>
      requests[q].handle != requests[r].handle)
  }

  predicate Reads(requests: map<Req, Phase>, r: Req, f: File, h: Handle) {
    r in requests && requests[r] == ReadingBig(f, h)
  }

  /** An open handle is read through, or idle in a file that is not released. */
  ghost predicate NoLeak(hs: Handles, requests: map<Req, Phase>, released: multiset<File>) {
    forall h :: h in hs.unclosed ==>
      && h in hs.fileOf
      && ((h in Idle(hs, hs.fileOf[h]) && hs.fileOf[h] !in released) || exists r :: Reads(requests, r, hs.fileOf[h], h))
  }

  ghost predicate Inv(s: State) {
    && CountsExact(s.readersCount, s.requests)
    && OnePlace(s.cache.Values, Owned(s.requests), s.pending, s.toRelease, s.released, s.files)
    && OneName(s.cache, s.requests)
    && HeldAlive(s.requests, s.cache.Values + s.pending)
    && HandlesApart(s.handles, s.requests, s.released)
    && NoLeak(s.handles, s.requests, s.released)
  }

  lemma InitInv()
    ensures Inv(Init())
  {
    assert forall f :: Holders(map[], f) == {};
    assert Owned(map[]) == {};
  }

  // ---- Every step keeps it: the count -----------------------------------------------------

  lemma HoldersMove(requests: map<Req, Phase>, r: Req, p: Phase, f: File)
    ensures Size(Holders(requests[r := p], f)) + Count(r in requests && Holds(requests[r], f))
      == Size(Holders(requests, f)) + Count(Holds(p, f))
  {
    var was := Holders(requests, f);
    assert Holders(requests[r := p], f) == if Holds(p, f) then was + {r} else was - {r};
    SizeMoves(was, r);
    hide Size;
  }

  lemma CountMoves(readersCount: map<File, int>, after: map<File, int>, requests: map<Req, Phase>, r: Req, p: Phase)
    requires CountsExact(readersCount, requests)
    requires forall f ::
      (if f in after then after[f] else 0) + Count(r in requests && Holds(requests[r], f))
      == (if f in readersCount then readersCount[f] else 0) + Count(Holds(p, f))
    ensures CountsExact(after, requests[r := p])
  {
    hide Size, Holders, Holds;
    forall f ensures (if f in after then after[f] else 0) == Size(Holders(requests[r := p], f)) {
      HoldersMove(requests, r, p, f);
    }
  }

  lemma CountsActed(s: State, r: Req, act: Act)
    requires CountsExact(s.readersCount, s.requests) && Acting(s, r, act)
    ensures var t := Acted(s, r, act); CountsExact(t.readersCount, t.requests)
  {
    hide CountsExact, Idle;
    var t := Acted(s, r, act);
    CountMoves(s.readersCount, t.readersCount, s.requests, r, t.requests[r]);
  }

  // ---- The places of a file ---------------------------------------------------------------

  lemma OwnedAfter(requests: map<Req, Phase>, cache: map<Key, File>, r: Req, p: Phase)
    requires OneName(cache, requests)
    ensures var owned, t := Owned(requests), Owned(requests[r := p]);
      if r in requests && Owns(requests[r]) then
        requests[r].own in owned && t == if Owns(p) then owned - {requests[r].own} + {p.own} else owned - {requests[r].own}
      else
        t == if Owns(p) then owned + {p.own} else owned
    ensures Owns(p) && (p.own !in Owned(requests) || (r in requests && Owns(requests[r]) && requests[r].own == p.own)) ==>
      OneName(cache, requests[r := p])
    ensures !Owns(p) ==> OneName(cache, requests[r := p])
  {
    var t := requests[r := p];
    forall q | q in requests && Owns(requests[q]) && q != r ensures requests[q].own in Owned(t) {
      assert q in t && Owns(t[q]) && t[q].own == requests[q].own;
    }
    if Owns(p) {
      assert r in t && Owns(t[r]) && t[r].own == p.own;
    }
    forall q | q in requests && Owns(requests[q]) ensures requests[q].own in Owned(requests) { }
  }

  lemma FileMoves(cached: set<File>, owned: set<File>, pending: set<File>, toRelease: set<File>,
                  released: multiset<File>, files: set<File>, f: File)
    requires OnePlace(cached, owned, pending, toRelease, released, files)
    ensures f in owned ==>
      && OnePlace(cached + {f}, owned - {f}, pending, toRelease, released, files)
      && OnePlace(cached, owned - {f}, pending, toRelease, released + multiset{f}, files)
    ensures f !in files ==> f !in owned && OnePlace(cached, owned + {f}, pending, toRelease, released, files + {f})
    ensures f in toRelease ==> OnePlace(cached, owned, pending, toRelease - {f}, released + multiset{f}, files)
    ensures f in owned || f in toRelease ==> f !in cached && f !in pending && f !in released
  {
    assert Places(cached, owned, pending, toRelease, released, f) == Count(f in files);
  }

  lemma NameMoves(cache: map<Key, File>, requests: map<Req, Phase>, key: Key, f: File)
    requires OneName(cache, requests) && key !in cache && f !in cache.Values
    ensures OneName(cache[key := f], requests)
  {
    assert forall k :: k in cache ==> cache[k] in cache.Values;
  }

  lemma PlacesActed(s: State, r: Req, act: Act)
    requires OnePlace(s.cache.Values, Owned(s.requests), s.pending, s.toRelease, s.released, s.files)
    requires OneName(s.cache, s.requests) && Acting(s, r, act)
    ensures var t := Acted(s, r, act);
      && OnePlace(t.cache.Values, Owned(t.requests), t.pending, t.toRelease, t.released, t.files)
      && OneName(t.cache, t.requests)
  {
    hide OnePlace, OneName, Owned, Idle;
    var t, owned := Acted(s, r, act), Owned(s.requests);
    OwnedAfter(s.requests, s.cache, r, t.requests[r]);
    match act {
      case Open(f, _) => FileMoves(s.cache.Values, owned, s.pending, s.toRelease, s.released, s.files, f);
      case Insert =>
        var key, own := s.requests[r].key, s.requests[r].own;
        if key !in s.cache {
          FileMoves(s.cache.Values, owned, s.pending, s.toRelease, s.released, s.files, own);
          ValuesPlus(s.cache, key, own);
          NameMoves(s.cache, t.requests, key, own);
        } else {
          assert owned - {own} + {own} == owned;
        }
      case ReleaseOwn =>
        FileMoves(s.cache.Values, owned, s.pending, s.toRelease, s.released, s.files, s.requests[r].own);
      case _ =>
    }
  }

  // ---- Who reads a file -------------------------------------------------------------------

  lemma AliveMoves(requests: map<Req, Phase>, r: Req, p: Phase, alive: set<File>, alive1: set<File>)
    requires HeldAlive(requests, alive) && alive <= alive1 && forall f :: Holds(p, f) ==> f in alive1
    ensures HeldAlive(requests[r := p], alive1)
  {
  }

  /** A request goes on holding what it held, if anything. */
  lemma AliveQuietly(s: State, r: Req, act: Act)
    requires HeldAlive(s.requests, s.cache.Values + s.pending) && Acting(s, r, act) && !act.Hit? && !act.Insert?
    ensures var t := Acted(s, r, act); HeldAlive(t.requests, t.cache.Values + t.pending)
  {
    var t := Acted(s, r, act);
    assert forall f :: Holds(t.requests[r], f) ==> r in s.requests && Holds(s.requests[r], f);
    AliveMoves(s.requests, r, t.requests[r], s.cache.Values + s.pending, t.cache.Values + t.pending);
    hide HeldAlive, Holds;
    assert t.requests == s.requests[r := t.requests[r]];
  }

  lemma AliveActed(s: State, r: Req, act: Act)
    requires HeldAlive(s.requests, s.cache.Values + s.pending) && Acting(s, r, act)
    ensures var t := Acted(s, r, act); HeldAlive(t.requests, t.cache.Values + t.pending)
  {
    hide Idle, HeldAlive;
    var t, alive := Acted(s, r, act), s.cache.Values + s.pending;
    match act {
      case Hit(key) =>
        assert s.cache[key] in s.cache.Values;
        AliveMoves(s.requests, r, t.requests[r], alive, t.cache.Values + t.pending);
      case Insert =>
        var key := s.requests[r].key;
        if key !in s.cache {
          ValuesPlus(s.cache, key, s.requests[r].own);
          assert t.cache.Values + t.pending == alive + {s.requests[r].own};
        } else {
          assert s.cache[key] in s.cache.Values;
        }
        AliveMoves(s.requests, r, t.requests[r], alive, t.cache.Values + t.pending);
      case _ => AliveQuietly(s, r, act);
    }
  }

  // ---- The handles of big files -----------------------------------------------------------

  lemma NoHandle(hs: Handles, requests: map<Req, Phase>, released: multiset<File>, r: Req, p: Phase)
    requires !p.ReadingBig? && (r in requests ==> !requests[r].ReadingBig?)
    ensures HandlesApart(hs, requests, released) ==> HandlesApart(hs, requests[r := p], released)
    ensures NoLeak(hs, requests, released) ==> NoLeak(hs, requests[r := p], released)
  {
    StillReads(requests, r, p);
  }

  /** What the other requests read through does not change. */
  lemma StillReads(requests: map<Req, Phase>, r: Req, p: Phase)
    ensures forall q, f, h :: q != r && Reads(requests, q, f, h) ==> Reads(requests[r := p], q, f, h)
    ensures forall f, h :: p == ReadingBig(f, h) ==> Reads(requests[r := p], r, f, h)
    ensures forall f, h :: r in requests && !requests[r].ReadingBig? ==> !Reads(requests, r, f, h)
  {
  }

  lemma IdleAfter(hs: Handles, t: Handles, f: File, q: seq<Handle>)
    requires t.idle == hs.idle[f := q]
    ensures Idle(t, f) == q && forall g :: g != f ==> Idle(t, g) == Idle(hs, g)
  {
  }

  lemma TakeIdle(hs: Handles, requests: map<Req, Phase>, released: multiset<File>, r: Req, f: File)
    requires HandlesApart(hs, requests, released) && f !in released && Idle(hs, f) != []
    requires r in requests && !requests[r].ReadingBig?
    ensures var h := Idle(hs, f)[|Idle(hs, f)| - 1];
      && HandlesApart(Pop(hs, f), requests[r := ReadingBig(f, h)], released)
      && (NoLeak(hs, requests, released) ==> NoLeak(Pop(hs, f), requests[r := ReadingBig(f, h)], released))
  {
    var idle, n := Idle(hs, f), |Idle(hs, f)| - 1;
    assert idle == idle[..n] + [idle[n]];
    IdleAfter(hs, Pop(hs, f), f, idle[..n]);
    StillReads(requests, r, ReadingBig(f, idle[n]));
    hide Idle, Reads;
    assert NoLeak(hs, requests, released) ==> NoLeak(Pop(hs, f), requests[r := ReadingBig(f, idle[n])], released) by {
      hide Distinct;
    }
    hide NoLeak;
  }

  lemma OpenNew(hs: Handles, requests: map<Req, Phase>, released: multiset<File>, r: Req, f: File, h: Handle)
    requires HandlesApart(hs, requests, released) && h !in hs.fileOf
    requires r in requests && !requests[r].ReadingBig?
    ensures var t, u := hs.(fileOf := hs.fileOf[h := f], unclosed := hs.unclosed + {h}), requests[r := ReadingBig(f, h)];
      && HandlesApart(t, u, released)
      && (NoLeak(hs, requests, released) ==> NoLeak(t, u, released))
  {
    var t := hs.(fileOf := hs.fileOf[h := f], unclosed := hs.unclosed + {h});
    assert forall g :: Idle(t, g) == Idle(hs, g);
    StillReads(requests, r, ReadingBig(f, h));
    hide Idle, Reads;
  }

  lemma PutBackApart(hs: Handles, requests: map<Req, Phase>, released: multiset<File>, r: Req, rewound: bool)
    requires HandlesApart(hs, requests, released) && r in requests && requests[r].ReadingBig?
    ensures var f, h := requests[r].file, requests[r].handle;
      HandlesApart(PutBack(hs, f, h, rewound), requests[r := Leaving(f)], released)
  {
    var f, h := requests[r].file, requests[r].handle;
    var t := PutBack(hs, f, h, rewound);
    if rewound {
      IdleAfter(hs, t, f, Idle(hs, f) + [h]);
    } else {
      assert forall g :: Idle(t, g) == Idle(hs, g);
    }
    hide Idle;
  }

  lemma PutBackLeak(hs: Handles, requests: map<Req, Phase>, released: multiset<File>, r: Req, rewound: bool)
    requires HandlesApart(hs, requests, released) && NoLeak(hs, requests, released)
    requires r in requests && requests[r].ReadingBig? && requests[r].file !in released
    ensures var f, h := requests[r].file, requests[r].handle;
      NoLeak(PutBack(hs, f, h, rewound), requests[r := Leaving(f)], released)
  {
    var f, h := requests[r].file, requests[r].handle;
    var t, u := PutBack(hs, f, h, rewound), requests[r := Leaving(f)];
    if rewound {
      IdleAfter(hs, t, f, Idle(hs, f) + [h]);
    } else {
      assert forall g :: Idle(t, g) == Idle(hs, g);
    }
    StillReads(requests, r, Leaving(f));
    forall x | x in t.unclosed && x != h
      ensures (x in Idle(t, t.fileOf[x]) && t.fileOf[x] !in released) || exists q :: Reads(u, q, t.fileOf[x], x)
    {
      if !(x in Idle(hs, hs.fileOf[x]) && hs.fileOf[x] !in released) {
        var q :| Reads(requests, q, hs.fileOf[x], x);
        assert q != r;
      }
    }
  }

  /** Releasing a file that nobody reads closes all its handles. */
  lemma CloseAll(hs: Handles, requests: map<Req, Phase>, released: multiset<File>, f: File)
    requires HandlesApart(hs, requests, released) && NoLeak(hs, requests, released)
    requires forall r :: r in requests ==> !Holds(requests[r], f)
    ensures forall h :: h in CloseIdle(hs, f).unclosed ==> hs.fileOf[h] != f
    ensures HandlesApart(CloseIdle(hs, f), requests, released + multiset{f})
    ensures NoLeak(CloseIdle(hs, f), requests, released + multiset{f})
  {
    var t := CloseIdle(hs, f);
    assert forall g :: Idle(t, g) == Idle(hs, g);
    forall r, g, h | Reads(requests, r, g, h) ensures g != f && h !in Idle(hs, f) {
      assert !Holds(requests[r], f);
    }
    ClosedApart(hs, requests, released, f);
    hide HandlesApart, Idle, Holds;
    forall h | h in t.unclosed
      ensures hs.fileOf[h] != f
      ensures (h in Idle(t, hs.fileOf[h]) && hs.fileOf[h] !in released + multiset{f})
        || exists r :: Reads(requests, r, hs.fileOf[h], h)
    {
      assert h !in Idle(hs, f);
    }
  }

  lemma ClosedApart(hs: Handles, requests: map<Req, Phase>, released: multiset<File>, f: File)
    requires HandlesApart(hs, requests, released)
    requires forall r :: r in requests ==> !Holds(requests[r], f)
    ensures HandlesApart(CloseIdle(hs, f), requests, released + multiset{f})
  {
    var t := CloseIdle(hs, f);
    assert forall g :: Idle(t, g) == Idle(hs, g);
    forall r | r in requests && requests[r].ReadingBig? ensures requests[r].handle in t.unclosed {
      assert !Holds(requests[r], f);
    }
    hide Idle, Holds;
  }

  lemma Unreleased(s: State, f: File)
    requires OnePlace(s.cache.Values, Owned(s.requests), s.pending, s.toRelease, s.released, s.files)
    ensures f in s.cache.Values || f in s.pending ==> f !in s.released && f !in s.toRelease && f !in Owned(s.requests)
  {
    assert Places(s.cache.Values, Owned(s.requests), s.pending, s.toRelease, s.released, f) == Count(f in s.files);
  }

  lemma HeldUnreleased(s: State, r: Req)
    requires OnePlace(s.cache.Values, Owned(s.requests), s.pending, s.toRelease, s.released, s.files)
    requires HeldAlive(s.requests, s.cache.Values + s.pending)
    ensures forall f :: r in s.requests && Holds(s.requests[r], f) ==> f !in s.released
  {
    forall f | r in s.requests && Holds(s.requests[r], f) ensures f !in s.released {
      Unreleased(s, f);
    }
  }

  lemma HandlesActed(s: State, r: Req, act: Act)
    requires Inv(s) && Acting(s, r, act)
    ensures var t := Acted(s, r, act);
      HandlesApart(t.handles, t.requests, t.released) && NoLeak(t.handles, t.requests, t.released)
  {
    var hs, requests, released := s.handles, s.requests, s.released;
    HeldUnreleased(s, r);
    hide CountsExact, OnePlace, OneName, HeldAlive, HandlesApart, NoLeak, Idle, Owned;
    match act {
      case ReleaseOwn =>
        var own := requests[r].own;
        OwnIsUnread(s, r);
        CloseAll(hs, requests, released, own);
        NoHandle(CloseIdle(hs, own), requests, released + multiset{own}, r, Using(requests[r].file));
      case NewBig =>
        if Idle(hs, requests[r].file) == [] {
          NoHandle(hs, requests, released, r, NoneIdle(requests[r].file));
        } else {
          TakeIdle(hs, requests, released, r, requests[r].file);
        }
      case OpenHandle(h) => OpenNew(hs, requests, released, r, requests[r].file, h);
      case CloseBig(rewound) =>
        PutBackApart(hs, requests, released, r, rewound);
        PutBackLeak(hs, requests, released, r, rewound);
      case _ => NoHandle(hs, requests, released, r, Acted(s, r, act).requests[r]);
    }
  }

  /** The file that only its opener knows has no readers. */
  lemma OwnIsUnread(s: State, r: Req)
    requires Inv(s) && r in s.requests && Owns(s.requests[r])
    ensures forall q :: q in s.requests ==> !Holds(s.requests[q], s.requests[r].own)
  {
    var own := s.requests[r].own;
    hide CountsExact, OneName, HandlesApart, NoLeak;
    assert own in Owned(s.requests);
    assert Places(s.cache.Values, Owned(s.requests), s.pending, s.toRelease, s.released, own) == Count(own in s.files);
  }

  // ---- The cleaner ------------------------------------------------------------------------

  lemma StaleValues(cache: map<Key, File>, requests: map<Req, Phase>, stale: set<Key>)
    requires OneName(cache, requests) && stale <= cache.Keys
    ensures (cache - stale).Values == cache.Values - Stale(cache, stale)
    ensures Stale(cache, stale) <= cache.Values
    ensures OneName(cache - stale, requests)
  {
    var n := cache - stale;
    forall k | k in cache && k !in stale ensures cache[k] in n.Values {
      assert n[k] == cache[k];
    }
  }

  lemma CleanedPlaces(s: State, stale: set<Key>)
    requires OnePlace(s.cache.Values, Owned(s.requests), s.pending, s.toRelease, s.released, s.files)
    requires OneName(s.cache, s.requests) && s.toRelease == {} && stale <= s.cache.Keys
    ensures var t := Cleaned(s, stale);
      && OnePlace(t.cache.Values, Owned(t.requests), t.pending, t.toRelease, t.released, t.files)
      && OneName(t.cache, t.requests)
  {
    var t, owned := Cleaned(s, stale), Owned(s.requests);
    StaleValues(s.cache, s.requests, stale);
    hide OneName, Owned, Readers;
    forall f ensures Places(t.cache.Values, owned, t.pending, t.toRelease, t.released, f) == Count(f in t.files) {
      assert Places(s.cache.Values, owned, s.pending, s.toRelease, s.released, f) == Count(f in s.files);
    }
  }

  lemma CleanedAlive(s: State, stale: set<Key>)
    requires CountsExact(s.readersCount, s.requests) && HeldAlive(s.requests, s.cache.Values + s.pending)
    requires OneName(s.cache, s.requests) && stale <= s.cache.Keys
    ensures var t := Cleaned(s, stale); HeldAlive(t.requests, t.cache.Values + t.pending)
  {
    var t := Cleaned(s, stale);
    StaleValues(s.cache, s.requests, stale);
    forall r, f | r in s.requests && Holds(s.requests[r], f) ensures f in t.cache.Values + t.pending {
      assert f in s.cache.Values + s.pending;
      assert r in Holders(s.requests, f);
      assert Readers(s, f) == Size(Holders(s.requests, f)) > 0;
    }
  }

  lemma ReleaseKeeps(s: State, f: File)
    requires Inv(s) && f in s.toRelease
    ensures Inv(Next(s, Release(f)))
    ensures Readers(s, f) == 0
    ensures forall h :: h in Next(s, Release(f)).handles.unclosed ==> s.handles.fileOf[h] != f
  {
    var owned := Owned(s.requests);
    FileMoves(s.cache.Values, owned, s.pending, s.toRelease, s.released, s.files, f);
    forall r | r in s.requests ensures !Holds(s.requests[r], f) {
      assert f !in s.cache.Values + s.pending;
    }
    assert Holders(s.requests, f) == {};
    CloseAll(s.handles, s.requests, s.released, f);
    hide OnePlace, OneName, HeldAlive, HandlesApart, NoLeak, Idle, Owned, Holds;
  }

  lemma StepKeeps(s: State, step: Step)
    requires Inv(s) && Enabled(s, step)
    ensures Inv(Next(s, step))
  {
    match step {
      case Request(r, act) =>
        HandlesActed(s, r, act);
        CountsActed(s, r, act);
        PlacesActed(s, r, act);
        AliveActed(s, r, act);
      case Clean(stale) =>
        CleanedPlaces(s, stale);
        CleanedAlive(s, stale);
      case Release(f) => ReleaseKeeps(s, f);
    }
    hide Acted, Acting, CountsExact, OnePlace, OneName, HeldAlive, HandlesApart, NoLeak, Owned;
  }

  // ---- What holds of every run ------------------------------------------------------------

  /** The steps lead from one state to the other, each one enabled where it is taken. */
  ghost predicate Run(s: State, steps: seq<Step>, t: State)
    decreases |steps|
  {
    if steps == [] then s == t
    else Enabled(s, steps[0]) && Run(Next(s, steps[0]), steps[1..], t)
  }

  lemma {:induction false} RunKeeps(s: State, steps: seq<Step>, t: State)
    requires Inv(s) && Run(s, steps, t)
    ensures Inv(t)
    decreases |steps|
  {
    hide Inv, Enabled, Next;
    if steps != [] {
      StepKeeps(s, steps[0]);
      RunKeeps(Next(s, steps[0]), steps[1..], t);
    }
  }

  /** readersCount is the number of requests that hold the file, so it never gets negative. */
  lemma ReadersExact(steps: seq<Step>, t: State, f: File)
    requires Run(Init(), steps, t)
    ensures Readers(t, f) == |Holders(t.requests, f)| >= 0
  {
    InitInv();
    RunKeeps(Init(), steps, t);
    hide Run, OnePlace, OneName, HeldAlive, HandlesApart, NoLeak, Holders;
  }

  /**
   * A file is released at most once, also one that lost the race into the cache. Then it has no
   * readers, no cache knows it, and none of its handles is open.
   */
  lemma ReleasedOnce(steps: seq<Step>, t: State, f: File)
    requires Run(Init(), steps, t)
    ensures t.released[f] <= 1
    ensures f in t.released ==>
      && Readers(t, f) == 0
      && f !in t.cache.Values && f !in t.pending && f !in t.toRelease && f !in Owned(t.requests)
      && forall h :: h in t.handles.unclosed ==> h in t.handles.fileOf && t.handles.fileOf[h] != f
  {
    InitInv();
    RunKeeps(Init(), steps, t);
    hide Run;
    Released(t, f);
    hide Inv;
  }

  lemma Released(s: State, f: File)
    requires Inv(s)
    ensures s.released[f] <= 1
    ensures f in s.released ==>
      && Readers(s, f) == 0
      && f !in s.cache.Values && f !in s.pending && f !in s.toRelease && f !in Owned(s.requests)
      && forall h :: h in s.handles.unclosed ==> h in s.handles.fileOf && s.handles.fileOf[h] != f
  {
    assert Places(s.cache.Values, Owned(s.requests), s.pending, s.toRelease, s.released, f) == Count(f in s.files);
    if f in s.released {
      forall r | r in s.requests ensures !Holds(s.requests[r], f) {
        assert f !in s.cache.Values + s.pending;
      }
      assert Holders(s.requests, f) == {};
      forall r, g, h | Reads(s.requests, r, g, h) ensures g != f {
        assert !Holds(s.requests[r], f);
      }
    }
  }

  /** A file that is released is never taken up again: it is not read, and not released a second time. */
  lemma StaysReleased(s: State, step: Step, f: File)
    requires Inv(s) && Enabled(s, step) && f in s.released
    ensures f in Next(s, step).released && Readers(Next(s, step), f) == 0
  {
    StepKeeps(s, step);
    StillReleased(s, step, f);
    Released(Next(s, step), f);
    hide Inv, Next, Enabled;
  }

  lemma StillReleased(s: State, step: Step, f: File)
    requires Enabled(s, step) && f in s.released
    ensures f in Next(s, step).released
  {
  }

  /** A round of the cleaner takes every parked file that lost its last reader, and every stale one without readers. */
  lemma CleanedExactly(s: State, stale: set<Key>, f: File)
    requires Inv(s) && Enabled(s, Clean(stale))
    ensures var t := Next(s, Clean(stale));
      && (f in t.toRelease <==> (f in s.pending || f in Stale(s.cache, stale)) && Readers(s, f) == 0)
      && (f in t.pending <==> (f in s.pending || f in Stale(s.cache, stale)) && Readers(s, f) > 0)
      && (f in t.cache.Values <==> f in s.cache.Values && f !in Stale(s.cache, stale))
  {
    StaleValues(s.cache, s.requests, stale);
    hide OnePlace, OneName, HeldAlive, HandlesApart, NoLeak;
  }

  // ---- Which file a request gets ----------------------------------------------------------

  /** Files are cached under what they were opened for, and used by requests that asked for that. */
  ghost predicate Matched(s: State) {
    && CacheMatches(s.files, s.cache, s.names.openedFor)
    && RequestsMatch(s.requests, s.names)
  }

  ghost predicate CacheMatches(files: set<File>, cache: map<Key, File>, openedFor: map<File, Key>) {
    openedFor.Keys == files && forall k :: k in cache ==> cache[k] in openedFor && openedFor[cache[k]] == k
  }

  ghost predicate RequestsMatch(requests: map<Req, Phase>, names: Names) {
    forall r :: r in requests ==> r in names.asked && Suits(names.openedFor, requests[r], names.asked[r])
  }

  predicate Suits(openedFor: map<File, Key>, p: Phase, key: Key) {
    match p
    case Missed(k) => k == key
    case Opened(k, own) => k == key && own in openedFor && openedFor[own] == key
    case Gone => true
    case _ => p.file in openedFor && openedFor[p.file] == key
  }

  lemma CacheMatchesActed(s: State, r: Req, act: Act)
    requires Matched(s) && Acting(s, r, act)
    ensures var t := Acted(s, r, act); CacheMatches(t.files, t.cache, t.names.openedFor)
  {
    hide Idle, Readers, CloseIdle, Pop, PutBack;
    assert r in s.requests ==> Suits(s.names.openedFor, s.requests[r], s.names.asked[r]);
    hide RequestsMatch;
  }

  lemma SuitsActed(s: State, r: Req, act: Act)
    requires Matched(s) && Acting(s, r, act)
    ensures var t := Acted(s, r, act);
      && r in t.names.asked && Suits(t.names.openedFor, t.requests[r], t.names.asked[r])
      && t.requests == s.requests[r := t.requests[r]]
  {
    hide Idle, Readers, CloseIdle, Pop, PutBack;
    assert r in s.requests ==> r in s.names.asked && Suits(s.names.openedFor, s.requests[r], s.names.asked[r]);
    hide RequestsMatch;
  }

  lemma NamesGrow(s: State, r: Req, act: Act)
    requires CacheMatches(s.files, s.cache, s.names.openedFor) && Acting(s, r, act)
    ensures var n, m := s.names, Acted(s, r, act).names;
      && (forall f :: f in n.openedFor ==> f in m.openedFor && m.openedFor[f] == n.openedFor[f])
      && (forall q :: q in n.asked && q != r ==> q in m.asked && m.asked[q] == n.asked[q])
  {
    hide Idle, Readers, CloseIdle, Pop, PutBack;
  }

  lemma RequestMoves(requests: map<Req, Phase>, r: Req, p: Phase, n: Names, m: Names)
    requires RequestsMatch(requests, n) && r in m.asked && Suits(m.openedFor, p, m.asked[r])
    requires forall f :: f in n.openedFor ==> f in m.openedFor && m.openedFor[f] == n.openedFor[f]
    requires forall q :: q in n.asked && q != r ==> q in m.asked && m.asked[q] == n.asked[q]
    ensures RequestsMatch(requests[r := p], m)
  {
  }

  lemma MatchedActed(s: State, r: Req, act: Act)
    requires Matched(s) && Acting(s, r, act)
    ensures Matched(Acted(s, r, act))
  {
    var t := Acted(s, r, act);
    CacheMatchesActed(s, r, act);
    SuitsActed(s, r, act);
    NamesGrow(s, r, act);
    RequestMoves(s.requests, r, t.requests[r], s.names, t.names);
    hide Acted, Acting, CacheMatches, RequestsMatch, Suits;
  }

  lemma MatchedKept(s: State, step: Step)
    requires Matched(s) && Enabled(s, step)
    ensures Matched(Next(s, step))
  {
    match step {
      case Request(r, act) => MatchedActed(s, r, act);
      case _ => hide Acted;
    }
  }

  lemma {:induction false} MatchedInRuns(s: State, steps: seq<Step>, t: State)
    requires Matched(s) && Run(s, steps, t)
    ensures Matched(t)
    decreases |steps|
  {
    hide Matched, Enabled, Next;
    if steps != [] {
      MatchedKept(s, steps[0]);
      MatchedInRuns(Next(s, steps[0]), steps[1..], t);
    }
  }

  /** In every run a request that has a file, or a handle of one, has the file of the path it asked for. */
  lemma RightFile(steps: seq<Step>, t: State, r: Req, f: File)
    requires Run(Init(), steps, t) && r in t.requests && Holds(t.requests[r], f)
    ensures r in t.names.asked && f in t.names.openedFor && t.names.openedFor[f] == t.names.asked[r]
    ensures t.requests[r].ReadingBig? ==>
      var h := t.requests[r].handle; h in t.handles.fileOf && t.handles.fileOf[h] == f && h in t.handles.unclosed
  {
    MatchedInRuns(Init(), steps, t);
    InitInv();
    RunKeeps(Init(), steps, t);
    hide Run, CountsExact, NoLeak, OnePlace, OneName, HeldAlive, CacheMatches;
  }

  /** How far a request still has to go. */
  function StepsLeft(p: Phase): nat {
    match p
    case Missed(_) => 7
    case Opened(_, _) => 6
    case Lost(_, _) => 5
    case Using(_) => 4
    case NoneIdle(_) => 3
    case Reading(_) => 2
    case ReadingBig(_, _) => 2
    case Leaving(_) => 1
    case Gone => 0
  }

  /** Every step of a request brings it nearer to its end, and until then it can always take one. */
  lemma RequestsEnd(s: State, r: Req, act: Act)
    requires r in s.requests
    ensures Acting(s, r, act) ==>
      r in Acted(s, r, act).requests && StepsLeft(Acted(s, r, act).requests[r]) < StepsLeft(s.requests[r])
    ensures !s.requests[r].Gone? ==>
      || Acting(s, r, OpenFails) || Acting(s, r, Insert) || Acting(s, r, ReleaseOwn) || Acting(s, r, NotModified)
      || Acting(s, r, OpenHandleFails) || Acting(s, r, CloseSmall) || Acting(s, r, CloseBig(true))
      || Acting(s, r, Decrement)
  {
    hide Idle, Readers, CloseIdle, PutBack;
  }

  /** A request opens a file exactly when the cache does not have one for its path; else it gets that one. */
  lemma LookupDecides(s: State, r: Req, key: Key)
    requires r !in s.requests
    ensures Acting(s, r, Miss(key)) <==> key !in s.cache
    ensures Acting(s, r, Hit(key)) <==> key in s.cache
    ensures key in s.cache ==> Acted(s, r, Hit(key)).requests[r] == Using(s.cache[key])
    ensures key !in s.cache ==>
      forall f, isBig :: var t := Acted(s, r, Miss(key));
        Acting(t, r, Open(f, isBig)) ==>
          var u := Acted(t, r, Open(f, isBig));
          u.requests[r] == Opened(key, f) && Acted(u, r, Insert).requests[r] == Using(f) &&
          Acted(u, r, Insert).cache == s.cache[key := f]
  {
    hide Idle, Readers, CloseIdle, PutBack, Pop;
  }

  lemma {:induction false} BigOnes(s: State, steps: seq<Step>, t: State)
    requires Run(s, steps, t) && s.big <= s.files
    ensures t.big <= t.files
    decreases |steps|
  {
    if steps != [] {
      hide Idle, Readers, CloseIdle, PutBack, Stale, Pop;
      assert Next(s, steps[0]).big <= Next(s, steps[0]).files;
      hide Next, Enabled;
      BigOnes(Next(s, steps[0]), steps[1..], t);
    }
  }

  lemma {:induction false} SameSize(s: State, steps: seq<Step>, t: State, f: File)
    requires Run(s, steps, t) && f in s.files
    ensures f in t.files && (f in t.big <==> f in s.big)
    decreases |steps|
  {
    if steps != [] {
      hide Idle, Readers, CloseIdle, PutBack, Stale, Pop;
      assert f in Next(s, steps[0]).files && (f in Next(s, steps[0]).big <==> f in s.big);
      hide Next, Enabled;
      SameSize(Next(s, steps[0]), steps[1..], t, f);
    }
  }

  /** In every run a file that was opened as a big one is read through handles of its own, and no other file is. */
  lemma ReadAsOpened(before: seq<Step>, s: State, r: Req, f: File, isBig: bool, steps: seq<Step>, t: State, v: Req)
    requires Run(Init(), before, s) && Acting(s, r, Open(f, isBig)) && Run(Acted(s, r, Open(f, isBig)), steps, t)
    requires v in t.requests && t.requests[v] == Using(f)
    ensures Acting(t, v, NewBig) <==> isBig
    ensures Acting(t, v, NewSmall) <==> !isBig
  {
    hide Run;
    BigOnes(Init(), before, s);
    SameSize(Acted(s, r, Open(f, isBig)), steps, t, f);
  }
}
