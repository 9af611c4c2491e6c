/**
 32-bit transaction ids, their widening to 64 bits relative to the next full id, and the cached
 range of valid ids that verify_heapam.c keeps and refreshes.
 */
module HeapXid {
  import opened Optional

  const XIDS: nat := 0x1_0000_0000
  const HALF: nat := 0x8000_0000
  const FULL: nat := 0x1_0000_0000_0000_0000
  const FIRST_NORMAL: nat := 3

  type Xid = x: nat | x < XIDS
  type Fxid = f: nat | f < FULL

  predicate Normal(x: Xid) {
    x >= FIRST_NORMAL
  }

  function Low(f: nat): Xid {
    f % XIDS
  }

  /** The conversion of a 32-bit difference to int32. */
  function Signed(d: int): int {
    var u := d % XIDS;
    if u < HALF then u else u - XIDS
  }

  /** TransactionIdPrecedes on normal ids. */
  predicate Precedes(x: Xid, y: Xid) {
    Signed(x - y) < 0
  }

  /** The guard of the branch for ids from before epoch 0. */
  predicate Clamps(xid: Xid, next: Fxid) {
    var diff := Signed(Low(next) - xid);
    diff > 0 && next - FIRST_NORMAL < diff
  }

  /** FullTransactionIdFromXidAndCtx */
  function Widen(xid: Xid, next: Fxid): Fxid
    requires Normal(Low(next))
  {
    if !Normal(xid) then xid
    else if Clamps(xid, next) then FIRST_NORMAL
    else (next - Signed(Low(next) - xid)) % FULL
  }

  /** The 2^32 full ids around `next`, of which every 32-bit id names one. */
  predicate Window(f: int, next: Fxid) {
    next - HALF < f <= next + HALF
  }

  /**
   Widening gives back a full id exactly when the id is in the window (the second disjunct is the
   wrap-around of the 64-bit subtraction at the very end of the id space).
   */
  lemma WidenExact(f: Fxid, next: Fxid)
    requires Normal(Low(next)) && Normal(Low(f))
    ensures Widen(Low(f), next) == f <==> Window(f, next) || Window(f + FULL, next)
  {
    WindowUnique(f, next);
  }

  /** The unclamped widening of x is the one full id in the window that ends in x. */
  lemma WindowUnique(f: int, next: Fxid)
    ensures var g := next - Signed(Low(next) - f % XIDS); Window(g, next) && g % XIDS == f % XIDS && (Window(f, next) <==> f == g)
  {
    var a, b := next / XIDS, f / XIDS;
    assert next == a * XIDS + Low(next) && f == b * XIDS + f % XIDS;
  }

  /** Clamping happens in epoch 0 only, to ids whose place in the window precedes every normal id. */
  lemma ClampedOnlyInEpochZero(xid: Xid, next: Fxid)
    requires Normal(Low(next)) && Normal(xid)
    ensures Clamps(xid, next) <==> (forall f: Fxid :: Low(f) == xid && Normal(Low(f)) ==> !Window(f, next)) && next < HALF + 2
    ensures Clamps(xid, next) ==> next / XIDS == 0 && Widen(xid, next) == FIRST_NORMAL
  {
    var g := next - Signed(Low(next) - xid);
    WindowUnique(xid, next);
    forall f: Fxid | Low(f) == xid && Normal(Low(f)) ensures Window(f, next) <==> f == g { WindowUnique(f, next); }
  }

  /** Within less than 2^31, the order of full ids is the circular order of their low halves. */
  lemma OrderKept(f: Fxid, g: Fxid)
    requires f - g < HALF && g - f < HALF
    ensures f < g <==> Precedes(Low(f), Low(g))
  {
    var a, b := f / XIDS, g / XIDS;
    assert f == a * XIDS + Low(f) && g == b * XIDS + Low(g);
  }

  // ------------------------------------------------------------------ the cached range

  datatype CommitStatus = Committed | InProgress | CurrentXid | Aborted

  datatype Verdict = BoundsOk | Invalid | InFuture | PrecedesClusterMin | PrecedesRelMin

  /** The full ids from `oldest` up to, and not including, `next` may appear. */
  datatype Range = Range(next: Fxid, oldest: Fxid) {
    predicate Has(f: Fxid) {
      oldest <= f < next
    }

    predicate Proper() {
      Normal(Low(next)) && Normal(Low(oldest)) && oldest < next < oldest + HALF
    }
  }

  /** What the shared transaction state says at the moment of a call. */
  datatype Shared = Shared(next: Fxid, oldest: Xid, oldestClog: Xid) {
    function Current(): Range
      requires Normal(Low(next))
    {
      Range(next, Widen(oldest, next))
    }
  }

  function Judge(f: Fxid, r: Range, relfrozen: Fxid): Verdict {
    if r.next <= f then InFuture
    else if f < r.oldest then PrecedesClusterMin
    else if f < relfrozen then PrecedesRelMin
    else BoundsOk
  }

  /** The range that the verdict on xid rests on: the cached one if it admits the id, else a fresh one. */
  function Consulted(xid: Xid, cached: Range, recent: Range): Range
    requires Normal(Low(cached.next))
  {
    if !Normal(xid) || cached.Has(Widen(xid, cached.next)) then cached else recent
  }

  function VerdictOn(xid: Xid, cached: Range, recent: Range, relfrozen: Fxid): Verdict
    requires Normal(Low(cached.next)) && Normal(Low(recent.next))
  {
    if xid == 0 then Invalid
    else if !Normal(xid) then BoundsOk
    else
      var r := Consulted(xid, cached, recent);
      Judge(Widen(xid, r.next), r, relfrozen)
  }

  /** The id-related part of HeapCheckContext. */
  class Context {
    var nextFxid: Fxid
    var nextXid: Xid
    var oldestXid: Xid
    var oldestFxid: Fxid
    const relfrozenFxid: Fxid
    var cachedXid: Xid
    var cachedStatus: CommitStatus

    ghost predicate Valid()
      reads this
    {
      Normal(nextXid) && nextXid == Low(nextFxid)
    }

    ghost function Cached(): Range
      reads this
    {
      Range(nextFxid, oldestFxid)
    }

    /** The setup of verify_heapam; oldestXid is set apart from oldestFxid until the first refresh. */
    constructor (now: Shared, relfrozen: Xid)
      requires Normal(Low(now.next))
      ensures Valid() && Cached() == now.Current() && relfrozenFxid == Widen(relfrozen, now.next) && cachedXid == 0
      ensures oldestXid == if Normal(relfrozen) then relfrozen else now.oldest
    {
      nextFxid, nextXid := now.next, Low(now.next);
      oldestXid, oldestFxid := now.oldest, Widen(now.oldest, now.next);
      relfrozenFxid := Widen(relfrozen, now.next);
      if Normal(relfrozen) { oldestXid := relfrozen; }
      cachedXid := 0;
    }

    /** update_cached_xid_range */
    method UpdateCachedRange(now: Shared)
      requires Normal(Low(now.next))
      modifies this
      ensures Valid() && Cached() == now.Current() && oldestXid == now.oldest
      ensures cachedXid == old(cachedXid) && cachedStatus == old(cachedStatus)
    {
      nextFxid, oldestXid := now.next, now.oldest;
      nextXid := Low(nextFxid);
      oldestFxid := Widen(oldestXid, nextFxid);
    }

    /** get_xid_status; `clog` answers for the commit log at the moment of the call. */
    method GetXidStatus(xid: Xid, now: Shared, wanted: bool, clog: Xid -> CommitStatus)
      returns (verdict: Verdict, status: Option<CommitStatus>)
      requires Valid() && Normal(Low(now.next))
      modifies this
      ensures Valid()
      ensures verdict == VerdictOn(xid, old(Cached()), now.Current(), relfrozenFxid)
      ensures Cached() == Consulted(xid, old(Cached()), now.Current())
      ensures status.Some? <==> verdict.BoundsOk? && wanted
      ensures status.Some? && !Normal(xid) ==> status.value == Committed
      ensures status.Some? && xid == old(cachedXid) && Normal(xid) ==> status.value == old(cachedStatus)
      ensures status.Some? && xid != old(cachedXid) && Normal(xid) ==>
        status.value == if Widen(now.oldestClog, nextFxid) <= Widen(xid, nextFxid) then clog(xid) else Committed
      ensures if Normal(xid) && status.Some? then cachedXid == xid && cachedStatus == status.value
              else cachedXid == old(cachedXid) && cachedStatus == old(cachedStatus)
    {
      if xid == 0 { return Invalid, None; }
      if xid < FIRST_NORMAL { return BoundsOk, if wanted then Some(Committed) else None; }
      var fxid := Widen(xid, nextFxid);
      if !(oldestFxid <= fxid < nextFxid) {
        UpdateCachedRange(now);
        fxid := Widen(xid, nextFxid);
      }
      if nextFxid <= fxid { return InFuture, None; }
      if fxid < oldestFxid { return PrecedesClusterMin, None; }
      if fxid < relfrozenFxid { return PrecedesRelMin, None; }
      if !wanted { return BoundsOk, None; }
      if xid == cachedXid { return BoundsOk, Some(cachedStatus); }
      var found := Committed;
      var horizon := Widen(now.oldestClog, nextFxid);
      if horizon <= fxid { found := clog(xid); }
      cachedXid, cachedStatus := xid, found;
      return BoundsOk, Some(found);
    }
  }

  // ----------------------------------------------------------------- a cache may be stale

  /** A refresh leaves the widened value of an id that is still valid unchanged. */
  lemma RefreshKeeps(f: Fxid, cached: Range, recent: Range)
    requires cached.Proper() && recent.Proper() && Normal(Low(f)) && cached.Has(f) && recent.Has(f)
    ensures Widen(Low(f), cached.next) == f == Widen(Low(f), recent.next)
  {
    WidenExact(f, cached.next);
    WidenExact(f, recent.next);
  }

  /** Against the stale range, every id near the present is admitted exactly when its full id is. */
  ghost predicate CacheTellsTrue(cached: Range, next: Fxid)
    requires Normal(Low(cached.next))
  {
    forall f: Fxid :: Window(f, next) && Normal(Low(f)) ==> (cached.Has(Widen(Low(f), cached.next)) <==> cached.Has(f))
  }

  /**
   A stale cache can be trusted if and only if the present is still less than 2^31 ids past the
   cached horizon, and the horizon is past the first normal id, to which underflows are clamped.
   (At the first normal id it still works when the underflow is too short to hit a normal id.)
   */
  lemma CacheTrustedIffRecent(cached: Range, next: Fxid)
    requires cached.Proper() && cached.next < next && Normal(Low(next)) && next + HALF < FULL
    ensures CacheTellsTrue(cached, next) <==> next < cached.oldest + HALF && ClampSafe(cached)
  {
    if next < cached.oldest + HALF && ClampSafe(cached) {
      forall f: Fxid | Window(f, next) && Normal(Low(f))
        ensures cached.Has(Widen(Low(f), cached.next)) <==> cached.Has(f)
      {
        RecentCacheTrue(f, cached, next);
      }
    } else if next < cached.oldest + HALF {
      var f := ClampAlias(cached, next);
    } else {
      var f := WrapAlias(cached, next);
    }
  }

  /** A cached horizon that clamped ids do not reach, as long as the present is within 2^31 of it. */
  predicate ClampSafe(cached: Range) {
    FIRST_NORMAL < cached.oldest || HALF - 1 <= cached.next
  }

  lemma RecentCacheTrue(f: Fxid, cached: Range, next: Fxid)
    requires cached.Proper() && cached.next < next < cached.oldest + HALF && ClampSafe(cached)
    requires Normal(Low(f)) && Window(f, next)
    ensures cached.Has(Widen(Low(f), cached.next)) <==> cached.Has(f)
  {
    WidenExact(f, cached.next);
    if !Window(f, cached.next) {
      BeyondWindow(f, cached.next);
      assert f - XIDS < cached.oldest;
    }
  }

  /** An id past the window is taken for one of 2^32 earlier, or clamped. */
  lemma BeyondWindow(f: Fxid, next: Fxid)
    requires Normal(Low(next)) && Normal(Low(f)) && next + HALF < f <= next + HALF + XIDS
    ensures Widen(Low(f), next) == if f - XIDS < FIRST_NORMAL then FIRST_NORMAL else f - XIDS
  {
    SameLow(f);
    WindowUnique(f - XIDS, next);
  }

  lemma SameLow(f: int)
    ensures (f - XIDS) % XIDS == f % XIDS
  {}

  /** An id of the future that the cached range takes for its own oldest one. */
  lemma WrapAlias(cached: Range, next: Fxid) returns (f: Fxid)
    requires cached.Proper() && cached.next < next && Normal(Low(next)) && next + HALF < FULL
    requires cached.oldest + HALF <= next
    ensures Window(f, next) && Normal(Low(f)) && !cached.Has(f) && cached.Has(Widen(Low(f), cached.next))
  {
    WindowUnique(cached.oldest, next);
    f := next - Signed(Low(next) - Low(cached.oldest));
    assert Widen(Low(cached.oldest), cached.next) == cached.oldest by { WidenExact(cached.oldest, cached.next); }
    if cached.Has(f) {
      WindowUnique(f, cached.next);
      WindowUnique(cached.oldest, cached.next);
    }
  }

  /** An id of the future that is clamped to the first normal one, and found valid. */
  lemma ClampAlias(cached: Range, next: Fxid) returns (f: Fxid)
    requires cached.Proper() && cached.next < next < cached.oldest + HALF && !ClampSafe(cached)
    ensures Window(f, next) && Normal(Low(f)) && !cached.Has(f) && cached.Has(Widen(Low(f), cached.next))
  {
    f := cached.next + HALF + 1;
    BeyondWindow(f, cached.next);
  }

  /** With a cache that can be trusted, the verdict tells where the full id really is. */
  lemma VerdictTrue(f: Fxid, cached: Range, recent: Range, relfrozen: Fxid)
    requires cached.Proper() && Normal(Low(recent.next)) && recent.oldest <= recent.next
    requires cached.next <= recent.next && cached.oldest <= recent.oldest
    requires recent.next < cached.oldest + HALF && ClampSafe(cached)
    requires Normal(Low(f)) && Window(f, recent.next)
    ensures var v := VerdictOn(Low(f), cached, recent, relfrozen);
            (v == InFuture <==> recent.next <= f) &&
            (v == PrecedesClusterMin <==> f < recent.oldest && !cached.Has(f)) &&
            (v == PrecedesRelMin <==> f < relfrozen && (cached.Has(f) || recent.Has(f))) &&
            (v == BoundsOk <==> relfrozen <= f && (cached.Has(f) || recent.Has(f)))
  {
    WidenExact(f, recent.next);
    WidenExact(f, cached.next);
    if cached.next < recent.next { RecentCacheTrue(f, cached, recent.next); }
  }
}
