/**
 * The sections of the file handler that run under cacheLock, on the caches and counts that they
 * change in place (fs.go). FileCache.dfy interleaves them with everything else.
 */
module FileHandler {

  type Path = seq<nat>

  class FsFile {
    const t: int                 // when it was opened
    var readersCount: int

    constructor (t: int)
      ensures this.t == t && readersCount == 0
    {
      this.t, readersCount := t, 0;
    }
  }

  predicate Stale(ff: FsFile, now: int, cacheDuration: int) {
    now - ff.t > cacheDuration
  }

  /** What is left of a cache. */
  function Fresh(cache: map<Path, FsFile>, now: int, cacheDuration: int): map<Path, FsFile> {
    map k | k in cache && !Stale(cache[k], now, cacheDuration) :: cache[k]
  }

  /** The files of the entries that are not. */
  function Gone(cache: map<Path, FsFile>, now: int, cacheDuration: int): set<FsFile> {
    set k | k in cache && Stale(cache[k], now, cacheDuration) :: cache[k]
  }

  /** Of these files, the busy ones are parked and the others are to be released. */
  ghost predicate Divided(files: set<FsFile>, busy: set<FsFile>, parked: seq<FsFile>, toRelease: seq<FsFile>) {
    && (forall ff :: ff in files ==> ff in if ff in busy then parked else toRelease)
    && (forall ff :: ff in parked ==> ff in files && ff in busy)
    && (forall ff :: ff in toRelease ==> ff in files && ff !in busy)
  }

  /** These files are read, and the other ones are not. */
  ghost predicate Busy(files: set<FsFile>, busy: set<FsFile>)
    reads files
  {
    forall ff :: ff in files ==> (ff in busy <==> ff.readersCount > 0)
  }

  function Elements(q: seq<FsFile>): set<FsFile> {
    set ff | ff in q
  }

  lemma NoneYet(busy: set<FsFile>)
    ensures Divided({}, busy, [], [])
  {
  }

  lemma OneMore(files: set<FsFile>, busy: set<FsFile>, p: seq<FsFile>, r: seq<FsFile>, ff: FsFile)
    requires Divided(files, busy, p, r)
    ensures ff in busy ==> Divided(files + {ff}, busy, p + [ff], r)
    ensures ff !in busy ==> Divided(files + {ff}, busy, p, r + [ff])
  {
  }

  lemma DividedBoth(busy: set<FsFile>, a: set<FsFile>, p: seq<FsFile>, r: seq<FsFile>,
                    b: set<FsFile>, q: seq<FsFile>, t: seq<FsFile>)
    requires Divided(a, busy, p, r) && Divided(b, busy, q, t)
    ensures Divided(a + b, busy, p + q, r + t)
  {
  }

  /** The files that the loop has met so far and that are stale. */
  ghost function Met(cache: map<Path, FsFile>, keys: set<Path>, now: int, cacheDuration: int): set<FsFile> {
    set k | k in cache && k !in keys && Stale(cache[k], now, cacheDuration) :: cache[k]
  }

  /** The entries that it has not met or that are not stale. */
  ghost function Left(cache: map<Path, FsFile>, keys: set<Path>, now: int, cacheDuration: int): map<Path, FsFile> {
    map k | k in cache && (k in keys || !Stale(cache[k], now, cacheDuration)) :: cache[k]
  }

  lemma MeetOne(cache: map<Path, FsFile>, keys: set<Path>, k: Path, now: int, cacheDuration: int)
    requires k in keys && k in cache
    ensures var left, met := Left(cache, keys, now, cacheDuration), Met(cache, keys, now, cacheDuration);
      if Stale(cache[k], now, cacheDuration) then
        && Left(cache, keys - {k}, now, cacheDuration) == left - {k} && |left - {k}| == |left| - 1
        && Met(cache, keys - {k}, now, cacheDuration) == met + {cache[k]}
      else
        && Left(cache, keys - {k}, now, cacheDuration) == left
        && Met(cache, keys - {k}, now, cacheDuration) == met
  {
    var left := Left(cache, keys, now, cacheDuration);
    assert (left - {k}).Keys == left.Keys - {k};
  }

  lemma MetAll(cache: map<Path, FsFile>, now: int, cacheDuration: int)
    ensures Left(cache, cache.Keys, now, cacheDuration) == cache && Met(cache, cache.Keys, now, cacheDuration) == {}
    ensures Left(cache, {}, now, cacheDuration) == Fresh(cache, now, cacheDuration)
    ensures Met(cache, {}, now, cacheDuration) == Gone(cache, now, cacheDuration)
  {
  }

  /** Entries stay up to their age; an older one is parked while somebody reads it, and released otherwise. */
  ghost predicate Aged(was: map<Path, FsFile>, left: map<Path, FsFile>, now: int, cacheDuration: int,
                       busy: set<FsFile>, parked: seq<FsFile>, toRelease: seq<FsFile>)
  {
    left.Keys <= was.Keys && forall k :: k in was ==>
      if now - was[k].t <= cacheDuration then k in left && left[k] == was[k]
      else k !in left && was[k] in if was[k] in busy then parked else toRelease
  }

  lemma AgedBy(was: map<Path, FsFile>, files: set<FsFile>, now: int, cacheDuration: int, busy: set<FsFile>,
               parked: seq<FsFile>, toRelease: seq<FsFile>)
    requires Divided(files, busy, parked, toRelease) && Gone(was, now, cacheDuration) <= files
    ensures Aged(was, Fresh(was, now, cacheDuration), now, cacheDuration, busy, parked, toRelease)
  {
  }

  /** The files that were parked before stay parked exactly while they are read. */
  ghost predicate Looked(pending: seq<FsFile>, busy: set<FsFile>, parked: seq<FsFile>, toRelease: seq<FsFile>) {
    forall ff :: ff in pending ==> ff in if ff in busy then parked else toRelease
  }

  lemma LookedMore(pending: seq<FsFile>, busy: set<FsFile>, p: seq<FsFile>, r: seq<FsFile>, q: seq<FsFile>, t: seq<FsFile>)
    requires Looked(pending, busy, p, r)
    ensures Looked(pending, busy, p + q, r + t)
  {
  }

  /** cleanCacheNolock: the stale entries leave, into one list when they are read and the other when not. */
  method CleanCacheNolock(cache: map<Path, FsFile>, now: int, cacheDuration: int, ghost busy: set<FsFile>)
    returns (left: map<Path, FsFile>, parked: seq<FsFile>, toRelease: seq<FsFile>)
    requires Busy(cache.Values, busy)
    ensures left == Fresh(cache, now, cacheDuration)
    ensures Divided(Gone(cache, now, cacheDuration), busy, parked, toRelease)
    ensures |parked| + |toRelease| + |left| == |cache|
    ensures Aged(cache, left, now, cacheDuration, busy, parked, toRelease)
  {
    left, parked, toRelease := cache, [], [];
    var keys := cache.Keys;
    NoneYet(busy);
    MetAll(cache, now, cacheDuration);
    hide Divided, Met, Left, Gone, Fresh, Aged;
    while keys != {}
      invariant keys <= cache.Keys && left == Left(cache, keys, now, cacheDuration)
      invariant Divided(Met(cache, keys, now, cacheDuration), busy, parked, toRelease)
      invariant |parked| + |toRelease| + |left| == |cache|
      decreases |keys|
    {
      var k :| k in keys;
      var ff := cache[k];
      MeetOne(cache, keys, k, now, cacheDuration);
      if now - ff.t > cacheDuration {
        OneMore(Met(cache, keys, now, cacheDuration), busy, parked, toRelease, ff);
        assert ff in cache.Values;
        if ff.readersCount > 0 {
          parked := parked + [ff];
        } else {
          toRelease := toRelease + [ff];
        }
        left := left - {k};
      }
      keys := keys - {k};
    }
    AgedBy(cache, Gone(cache, now, cacheDuration), now, cacheDuration, busy, parked, toRelease);
  }

  lemma ElementsMore(q: seq<FsFile>, i: nat)
    requires i < |q|
    ensures Elements(q[..i + 1]) == Elements(q[..i]) + {q[i]} && q[i] in Elements(q)
    ensures Elements(q[..0]) == {} && q[..|q|] == q
  {
    assert q[..i + 1] == q[..i] + [q[i]];
  }

  /** cleanCache, first loop: what was parked before may be released by now. */
  method SplitPending(pending: seq<FsFile>, ghost busy: set<FsFile>) returns (parked: seq<FsFile>, toRelease: seq<FsFile>)
    requires Busy(Elements(pending), busy)
    ensures Divided(Elements(pending), busy, parked, toRelease)
    ensures |parked| + |toRelease| == |pending| && Looked(pending, busy, parked, toRelease)
  {
    parked, toRelease := [], [];
    NoneYet(busy);
    assert Elements(pending[..0]) == {};
    hide Divided;
    for i := 0 to |pending|
      invariant Divided(Elements(pending[..i]), busy, parked, toRelease)
      invariant |parked| + |toRelease| == i
    {
      var ff := pending[i];
      ElementsMore(pending, i);
      OneMore(Elements(pending[..i]), busy, parked, toRelease, ff);
      if ff.readersCount > 0 {
        parked := parked + [ff];
      } else {
        toRelease := toRelease + [ff];
      }
    }
    assert pending[..|pending|] == pending;
    LookedAll(pending, busy, parked, toRelease);
  }

  lemma LookedAll(pending: seq<FsFile>, busy: set<FsFile>, parked: seq<FsFile>, toRelease: seq<FsFile>)
    requires Divided(Elements(pending), busy, parked, toRelease)
    ensures Looked(pending, busy, parked, toRelease)
  {
    assert forall ff :: ff in pending ==> ff in Elements(pending);
  }

  class Handler {
    var cache: map<Path, FsFile>
    var cacheBrotli: map<Path, FsFile>
    var cacheGzip: map<Path, FsFile>
    const cacheDuration: int

    constructor (cacheDuration: int)
      ensures cache == map[] && cacheBrotli == map[] && cacheGzip == map[] && this.cacheDuration == cacheDuration
    {
      cache, cacheBrotli, cacheGzip, this.cacheDuration := map[], map[], map[], cacheDuration;
    }

    /** handleRequest, first section: a file that is in the cache is counted before the lock is let go. */
    method Lookup(path: Path) returns (ff: FsFile?)
      modifies if path in cache then {cache[path]} else {}
      ensures ff == if path in cache then cache[path] else null
      ensures ff != null ==> ff.readersCount == old(cache[path].readersCount) + 1
    {
      if path in cache {
        ff := cache[path];
        ff.readersCount := ff.readersCount + 1;
      } else {
        ff := null;
      }
    }

    /**
     * handleRequest, second section: the opened file goes into the cache unless somebody else's is
     * there by now. One of the two is counted, and the caller uses that one; when it lost, it has to
     * release its own.
     */
    method Insert(path: Path, own: FsFile) returns (ff: FsFile, lost: bool)
      modifies this`cache, if path in cache then {cache[path]} else {own}
      ensures lost == (path in old(cache))
      ensures ff == if lost then old(cache)[path] else own
      ensures cache == old(cache)[path := ff]
      ensures ff.readersCount == old(ff.readersCount) + 1
    {
      lost := path in cache;
      if !lost {
        cache := cache[path := own];
        ff := own;
      } else {
        ff := cache[path];
      }
      ff.readersCount := ff.readersCount + 1;
    }

    /**
     * cleanCache: every stale entry leaves its cache; what is read is parked, and the rest is to be released.
     * The clock is read once for each cache.
     */
    method CleanCache(pending: seq<FsFile>, now: int, now1: int, now2: int, ghost busy: set<FsFile>)
      returns (parked: seq<FsFile>, toRelease: seq<FsFile>)
      requires forall ff :: ff in Elements(pending) + cache.Values + cacheBrotli.Values + cacheGzip.Values ==>
        (ff in busy <==> ff.readersCount > 0)
      modifies this`cache, this`cacheBrotli, this`cacheGzip
      ensures cache == Fresh(old(cache), now, cacheDuration)
      ensures cacheBrotli == Fresh(old(cacheBrotli), now1, cacheDuration)
      ensures cacheGzip == Fresh(old(cacheGzip), now2, cacheDuration)
      ensures Divided(Elements(pending) + Gone(old(cache), now, cacheDuration)
        + Gone(old(cacheBrotli), now1, cacheDuration) + Gone(old(cacheGzip), now2, cacheDuration), busy, parked, toRelease)
      ensures |parked| + |toRelease| + |cache| + |cacheBrotli| + |cacheGzip|
        == |pending| + |old(cache)| + |old(cacheBrotli)| + |old(cacheGzip)|
      ensures Aged(old(cache), cache, now, cacheDuration, busy, parked, toRelease)
      ensures Aged(old(cacheBrotli), cacheBrotli, now1, cacheDuration, busy, parked, toRelease)
      ensures Aged(old(cacheGzip), cacheGzip, now2, cacheDuration, busy, parked, toRelease)
      ensures Looked(pending, busy, parked, toRelease)
    {
      hide Divided, Gone, Fresh, Aged, Looked, Elements;
      var c0, c1, c2;
      ghost var files;
      c0, c1, c2, parked, toRelease, files := DivideAll(pending, now, now1, now2, busy);
      AgedBy(cache, files, now, cacheDuration, busy, parked, toRelease);
      AgedBy(cacheBrotli, files, now1, cacheDuration, busy, parked, toRelease);
      AgedBy(cacheGzip, files, now2, cacheDuration, busy, parked, toRelease);
      cache, cacheBrotli, cacheGzip := c0, c1, c2;
    }

    /** The files of all three caches, and those that were parked. */
    method DivideAll(pending: seq<FsFile>, now: int, now1: int, now2: int, ghost busy: set<FsFile>)
      returns (c0: map<Path, FsFile>, c1: map<Path, FsFile>, c2: map<Path, FsFile>,
               parked: seq<FsFile>, toRelease: seq<FsFile>, ghost files: set<FsFile>)
      requires Busy(Elements(pending), busy)
      requires Busy(cache.Values, busy) && Busy(cacheBrotli.Values, busy) && Busy(cacheGzip.Values, busy)
      ensures c0 == Fresh(cache, now, cacheDuration) && c1 == Fresh(cacheBrotli, now1, cacheDuration)
      ensures c2 == Fresh(cacheGzip, now2, cacheDuration)
      ensures files == Elements(pending) + Gone(cache, now, cacheDuration)
        + Gone(cacheBrotli, now1, cacheDuration) + Gone(cacheGzip, now2, cacheDuration)
      ensures Divided(files, busy, parked, toRelease) && Looked(pending, busy, parked, toRelease)
      ensures |parked| + |toRelease| + |c0| + |c1| + |c2| == |pending| + |cache| + |cacheBrotli| + |cacheGzip|
    {
      hide Divided, Gone, Fresh, Aged, Looked, Elements;
      parked, toRelease := SplitPending(pending, busy);
      files := Elements(pending);
      var p, r;
      c0, p, r := CleanCacheNolock(cache, now, cacheDuration, busy);
      DividedBoth(busy, files, parked, toRelease, Gone(cache, now, cacheDuration), p, r);
      LookedMore(pending, busy, parked, toRelease, p, r);
      parked, toRelease, files := parked + p, toRelease + r, files + Gone(cache, now, cacheDuration);
      c1, p, r := CleanCacheNolock(cacheBrotli, now1, cacheDuration, busy);
      DividedBoth(busy, files, parked, toRelease, Gone(cacheBrotli, now1, cacheDuration), p, r);
      LookedMore(pending, busy, parked, toRelease, p, r);
      parked, toRelease, files := parked + p, toRelease + r, files + Gone(cacheBrotli, now1, cacheDuration);
      c2, p, r := CleanCacheNolock(cacheGzip, now2, cacheDuration, busy);
      DividedBoth(busy, files, parked, toRelease, Gone(cacheGzip, now2, cacheDuration), p, r);
      LookedMore(pending, busy, parked, toRelease, p, r);
      parked, toRelease, files := parked + p, toRelease + r, files + Gone(cacheGzip, now2, cacheDuration);
    }
  }
}
