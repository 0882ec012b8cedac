/** The API's in-memory copy of the published table: `CacheManager` keeps the last frame read
    from the object store together with the store's last-modified timestamp, and reloads only
    when the cache is empty or the timestamp moved. Object-store and DuckDB calls are an
    abstract store; the lock is a flag, enough to show nested acquisition, not interleavings. */
module Cache {
  import opened Wrappers

  /** The `LastModified` value of the stored object. */
  type Timestamp = int

  /** What the object store answers right now. `head` is the timestamp the head lookup
      returns and `payload` the frame a download returns; `None` means that call raises. */
  datatype Store<Frame> = Store(head: Option<Timestamp>, payload: Option<Frame>)

  /** The manager's fields: the cached frame, its timestamp, and whether the lock is held. */
  datatype CacheState<Frame> = CacheState(data: Option<Frame>, lastModified: Option<Timestamp>, locked: bool)

  /** How a call to `load_data_into_cache` ends. `Blocked`: it tried to acquire the lock while
      it was already held and never returns. `HeadFailed` and `DownloadFailed`: the head
      lookup or the download raised. `Reloaded`: a fresh copy was stored. `UpToDate`: the
      cached copy was kept. */
  datatype Outcome = Blocked | HeadFailed | DownloadFailed | Reloaded | UpToDate

  /** How a call to `get_cached_data` ends: the cached frame returned, the calling thread
      waiting forever on the lock, or an exception from the store. */
  datatype Answer<Frame> = Served(data: Option<Frame>) | Deadlocked | Failed

  /** Data and timestamp are only ever assigned together. */
  predicate Valid<Frame>(c: CacheState<Frame>)
  {
    c.data.Some? <==> c.lastModified.Some?
  }

  /** The state of a new manager. */
  function Empty<Frame>(): (c: CacheState<Frame>)
    ensures Valid(c) && c.data.None? && c.lastModified.None? && !c.locked
  {
    CacheState(None, None, false)
  }

  /** Whether the cached copy must be replaced by the object with timestamp `head`. */
  predicate Stale<Frame>(c: CacheState<Frame>, head: Timestamp)
  {
    c.data.None? || c.lastModified != Some(head)
  }

  /** Whether a call ending this way downloaded (or tried to download) the object. */
  predicate Downloaded(o: Outcome)
  {
    o == Reloaded || o == DownloadFailed
  }

  /** Whether a call ending this way asked the store for the object's timestamp. */
  predicate LookedUp(o: Outcome)
  {
    o != Blocked
  }

  /** The body of `load_data_into_cache`, run while holding the lock: a head lookup, then a
      download exactly when the cache is stale, and both fields assigned only after both
      calls returned. */
  function LoadHoldingLock<Frame>(c: CacheState<Frame>, store: Store<Frame>): (r: (CacheState<Frame>, Outcome))
    ensures r.1 != Blocked
    ensures r.1 == Reloaded ==> r.0 == CacheState(store.payload, store.head, c.locked) && store.payload.Some?
    ensures r.1 != Reloaded ==> r.0 == c
    ensures r.1 == HeadFailed <==> store.head.None?
    ensures Downloaded(r.1) <==> store.head.Some? && Stale(c, store.head.value)
    ensures r.1 == DownloadFailed ==> store.payload.None?
  {
    if store.head.None? then (c, HeadFailed)
    else if Stale(c, store.head.value) then
      if store.payload.None? then (c, DownloadFailed)
      else (CacheState(store.payload, store.head, c.locked), Reloaded)
    else (c, UpToDate)
  }

  /** `load_data_into_cache`: `threading.Lock` is not reentrant, so a call made while the
      lock is held waits forever; otherwise the body runs and the lock is released on every
      exit, exceptional or not. */
  function Load<Frame>(c: CacheState<Frame>, store: Store<Frame>): (r: (CacheState<Frame>, Outcome))
    ensures r.1 == Blocked <==> c.locked
    ensures r.1 == Blocked ==> r.0 == c
    ensures !c.locked ==> r == ((LoadHoldingLock(c, store).0).(locked := false), LoadHoldingLock(c, store).1)
  {
    if c.locked then (c, Blocked)
    else
      var (after, outcome) := LoadHoldingLock(c.(locked := true), store);
      (after.(locked := false), outcome)
  }

  /** `get_cached_data` as written: it takes the lock, and on an empty cache calls
      `load_data_into_cache`, which tries to take the same lock again. */
  function Get<Frame>(c: CacheState<Frame>, store: Store<Frame>): (r: (CacheState<Frame>, Answer<Frame>))
    ensures r.1 == Deadlocked <==> c.locked || c.data.None?
    ensures r.1 == Deadlocked ==> r.0.locked
    ensures !c.locked && c.data.Some? ==> r == (c, Served(c.data))
  {
    if c.locked then (c, Deadlocked)
    else
      var held := c.(locked := true);
      if c.data.None? then
        var (after, outcome) := Load(held, store);
        if outcome == Blocked then (after, Deadlocked)
        else (after.(locked := false), if outcome == HeadFailed || outcome == DownloadFailed then Failed else Served(after.data))
      else (c, Served(c.data))
  }

  /** `get_cached_data` as evidently intended (a reentrant lock, or the load body called
      while already holding the lock): an empty cache is filled, a failure propagates. */
  function GetFixed<Frame>(c: CacheState<Frame>, store: Store<Frame>): (r: (CacheState<Frame>, Answer<Frame>))
    ensures r.1 == Deadlocked <==> c.locked
    ensures !c.locked ==> !r.0.locked
    ensures r.1.Served? ==> r.1.data.Some? && r.1.data == r.0.data
    ensures r.1 == Failed ==> r.0 == c
  {
    if c.locked then (c, Deadlocked)
    else if c.data.None? then
      var (after, outcome) := LoadHoldingLock(c.(locked := true), store);
      (after.(locked := false), if outcome == HeadFailed || outcome == DownloadFailed then Failed else Served(after.data))
    else (c, Served(c.data))
  }

  // ---------------------------------------------------------------------------------------
  // Properties of the state machine

  /** Loading keeps data and timestamp paired. */
  lemma LoadKeepsValid<Frame>(c: CacheState<Frame>, store: Store<Frame>)
    requires Valid(c)
    ensures Valid(Load(c, store).0)
    ensures Valid(Get(c, store).0) && Valid(GetFixed(c, store).0)
  {
  }

  /** A download happens exactly when the lock is free, the head lookup succeeds, and the
      cache is empty or holds another timestamp. */
  lemma DownloadIffStale<Frame>(c: CacheState<Frame>, store: Store<Frame>)
    ensures Downloaded(Load(c, store).1) <==>
      !c.locked && store.head.Some? && (c.data.None? || c.lastModified != Some(store.head.value))
  {
  }

  /** With the lock free, a working store and a stale cache, a load stores the downloaded
      frame with the looked-up timestamp and releases the lock. */
  lemma StaleReloads<Frame>(c: CacheState<Frame>, store: Store<Frame>)
    requires !c.locked && store.head.Some? && store.payload.Some? && Stale(c, store.head.value)
    ensures Load(c, store) == (CacheState(store.payload, store.head, false), Reloaded)
  {
  }

  /** After a reload the cache holds the downloaded frame and exactly the timestamp the head
      lookup returned, and it is no longer empty. */
  lemma ReloadStoresBoth<Frame>(c: CacheState<Frame>, store: Store<Frame>)
    requires Load(c, store).1 == Reloaded
    ensures Load(c, store).0 == CacheState(store.payload, store.head, false)
    ensures Load(c, store).0.data.Some? && Load(c, store).0.lastModified == store.head
  {
  }

  /** A failing head lookup or download leaves both fields as they were. */
  lemma FailureKeepsCache<Frame>(c: CacheState<Frame>, store: Store<Frame>)
    requires Load(c, store).1 == HeadFailed || Load(c, store).1 == DownloadFailed
    ensures Load(c, store).0 == c.(locked := false)
  {
  }

  /** A non-empty cache whose timestamp matches the store's is not downloaded again and
      stays as it is. */
  lemma FreshCacheKept<Frame>(c: CacheState<Frame>, store: Store<Frame>)
    requires !c.locked && c.data.Some? && store.head.Some? && c.lastModified == store.head
    ensures Load(c, store) == (c, UpToDate)
  {
  }

  /** Loading twice from an unchanged store downloads at most once: the second call finds the
      cache up to date. */
  lemma SecondLoadNoDownload<Frame>(c: CacheState<Frame>, store: Store<Frame>)
    requires Load(c, store).1 == Reloaded || Load(c, store).1 == UpToDate
    ensures Load(Load(c, store).0, store) == (Load(c, store).0, UpToDate)
    ensures !Downloaded(Load(Load(c, store).0, store).1)
  {
    var first := Load(c, store).0;
    assert !c.locked;
    if Load(c, store).1 == UpToDate {
      FreshCacheKept(c, store);
    }
    FreshCacheKept(first, store);
  }

  /** `get_cached_data` on a filled cache returns it without consulting the store. */
  lemma GetFilledIgnoresStore<Frame>(c: CacheState<Frame>, store: Store<Frame>, other: Store<Frame>)
    requires !c.locked && c.data.Some?
    ensures Get(c, store) == Get(c, other) == (c, Served(c.data))
  {
  }

  /** The defect: `get_cached_data` on an empty cache acquires the lock and then waits on it
      forever inside `load_data_into_cache`; the lock stays held, so every later load and
      every later get waits as well, and the cache is never filled. */
  lemma GetDeadlocksOnEmpty<Frame>(c: CacheState<Frame>, store: Store<Frame>, later: Store<Frame>)
    requires !c.locked && c.data.None?
    ensures Get(c, store) == (c.(locked := true), Deadlocked)
    ensures Load(Get(c, store).0, later) == (Get(c, store).0, Blocked)
    ensures Get(Get(c, store).0, later) == (Get(c, store).0, Deadlocked)
  {
    var held := c.(locked := true);
    assert Load(held, store) == (held, Blocked);
  }

  /** A fresh manager's first `get_cached_data` deadlocks, whatever the store holds. */
  lemma FirstGetDeadlocks<Frame>(store: Store<Frame>)
    ensures Get(Empty<Frame>(), store).1 == Deadlocked
    ensures Get(Empty<Frame>(), store).0.locked
  {
    GetDeadlocksOnEmpty(Empty<Frame>(), store, store);
  }

  /** The corrected get fills an empty cache from a working store and serves that frame,
      releasing the lock; with a filled cache it behaves exactly like the original. */
  lemma FixedGetServes<Frame>(c: CacheState<Frame>, store: Store<Frame>)
    requires !c.locked
    ensures c.data.Some? ==> GetFixed(c, store) == Get(c, store)
    ensures c.data.None? && store.head.Some? && store.payload.Some? ==>
      GetFixed(c, store) == (CacheState(store.payload, store.head, false), Served(store.payload))
    ensures c.data.None? && (store.head.None? || store.payload.None?) ==>
      GetFixed(c, store) == (c, Failed)
    ensures !GetFixed(c, store).0.locked && GetFixed(c, store).1 != Deadlocked
  {
  }

  // ---------------------------------------------------------------------------------------
  // The manager object

  /** `CacheManager`, whose two cache fields are updated in place under its lock. The ghost
      counters record how often the store was asked for a timestamp and for the object. */
  class CacheManager<Frame> {
    var cachedData: Option<Frame>
    var cachedLastModified: Option<Timestamp>
    var locked: bool
    ghost var headLookups: nat
    ghost var downloads: nat

    function State(): CacheState<Frame>
      reads this
    {
      CacheState(cachedData, cachedLastModified, locked)
    }

    /** `__init__`: no data, no timestamp, the lock free. */
    constructor()
      ensures State() == Empty<Frame>()
      ensures headLookups == 0 && downloads == 0
    {
      cachedData := None;
      cachedLastModified := None;
      locked := false;
      headLookups := 0;
      downloads := 0;
    }

    /** The statements inside `with self._lock:` of `load_data_into_cache`. */
    method LoadHoldingLockBody(store: Store<Frame>) returns (outcome: Outcome)
      modifies this
      ensures (State(), outcome) == LoadHoldingLock(old(State()), store)
      ensures headLookups == old(headLookups) + 1
      ensures downloads == old(downloads) + (if Downloaded(outcome) then 1 else 0)
    {
      headLookups := headLookups + 1;
      if store.head.None? {
        return HeadFailed;
      }
      var lastModified := store.head.value;
      if cachedData.None? || Some(lastModified) != cachedLastModified {
        downloads := downloads + 1;
        if store.payload.None? {
          return DownloadFailed;
        }
        var frame := store.payload.value;
        cachedData := Some(frame);
        cachedLastModified := Some(lastModified);
        return Reloaded;
      }
      return UpToDate;
    }

    /** `load_data_into_cache`. */
    method LoadDataIntoCache(store: Store<Frame>) returns (outcome: Outcome)
      modifies this
      ensures (State(), outcome) == Load(old(State()), store)
      ensures headLookups == old(headLookups) + (if LookedUp(outcome) then 1 else 0)
      ensures downloads == old(downloads) + (if Downloaded(outcome) then 1 else 0)
    {
      if locked {
        // the non-reentrant lock is already held: the acquisition never returns
        return Blocked;
      }
      locked := true;
      outcome := LoadHoldingLockBody(store);
      locked := false;
    }

    /** `get_cached_data` as written. */
    method GetCachedData(store: Store<Frame>) returns (answer: Answer<Frame>)
      modifies this
      ensures (State(), answer) == Get(old(State()), store)
      ensures headLookups == old(headLookups) && downloads == old(downloads)
    {
      if locked {
        return Deadlocked;
      }
      locked := true;
      if cachedData.None? {
        var outcome := LoadDataIntoCache(store);
        assert outcome == Blocked;
        return Deadlocked;
      }
      answer := Served(cachedData);
      locked := false;
    }

    /** `get_cached_data` as evidently intended: the load body runs under the lock already held. */
    method GetCachedDataFixed(store: Store<Frame>) returns (answer: Answer<Frame>)
      modifies this
      ensures (State(), answer) == GetFixed(old(State()), store)
      ensures old(cachedData).Some? || old(locked) ==> headLookups == old(headLookups) && downloads == old(downloads)
    {
      if locked {
        return Deadlocked;
      }
      locked := true;
      if cachedData.None? {
        var outcome := LoadHoldingLockBody(store);
        if outcome == HeadFailed || outcome == DownloadFailed {
          answer := Failed;
        } else {
          answer := Served(cachedData);
        }
      } else {
        answer := Served(cachedData);
      }
      locked := false;
    }
  }
}
