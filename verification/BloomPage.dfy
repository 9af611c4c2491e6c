/**
 Pages of a bloom index: how many tuples fit, adding a tuple, and compacting a page for VACUUM.
 */
module BloomPage {
  import opened BloomSignature

  const BLCKSZ := 8192
  const PAGE_HEADER := 24      // MAXALIGN(SizeOfPageHeaderData)
  const PAGE_OPAQUE := 8       // MAXALIGN(sizeof(BloomPageOpaqueData))
  const TUPLE_HEADER := 6      // offsetof(BloomTuple, sign)

  /** Block numbers that fit in the metapage (BloomMetaBlockN). */
  const META_BLOCKS := 2004

  datatype Tuple = Tuple(tid: nat, sign: seq<Word>)

  datatype Page = Meta | New | Deleted | Live(tuples: seq<Tuple>) {
    /** PageIsNew or BloomPageIsDeleted. */
    predicate Free() {
      New? || Deleted?
    }

    function Contents(): seq<Tuple> {
      if Live? then tuples else []
    }
  }

  /** sizeOfBloomTuple */
  function TupleSize(opts: Options): nat {
    TUPLE_HEADER + 2 * opts.bloomLength
  }

  /** BloomPageGetFreeSpace on a page with n tuples. */
  function FreeSpace(size: nat, n: nat): int {
    BLCKSZ - PAGE_HEADER - n * size - PAGE_OPAQUE
  }

  predicate Room(size: nat, n: nat) {
    FreeSpace(size, n) >= size
  }

  /** The tuples of a page do not overrun it. */
  predicate Fits(size: nat, p: Page) {
    FreeSpace(size, |p.Contents()|) >= 0
  }

  /** An empty page takes a tuple of any allowed signature length. */
  lemma EmptyPageHasRoom(opts: Options)
    requires opts.Valid()
    ensures Room(TupleSize(opts), 0)
  {}

  lemma AddFits(size: nat, n: nat)
    ensures Room(size, n) ==> FreeSpace(size, n + 1) >= 0
  {
    assert (n + 1) * size == n * size + size;
  }

  /** The tuples of a page that an insert works on: a free page is reinitialised first. */
  function Usable(p: Page): seq<Tuple> {
    if p.Free() then [] else p.Contents()
  }

  // ------------------------------------------------------------------------- compaction

  /** The tuples VACUUM keeps, in order. */
  function Kept(ts: seq<Tuple>, dead: set<nat>): (r: seq<Tuple>)
    ensures |r| <= |ts|
  {
    if ts == [] then []
    else
      var n := |ts| - 1;
      Kept(ts[..n], dead) + if ts[n].tid in dead then [] else [ts[n]]
  }

  /** The tuples VACUUM removes, in order. */
  function Dropped(ts: seq<Tuple>, dead: set<nat>): (r: seq<Tuple>)
    ensures |r| + |Kept(ts, dead)| == |ts|
  {
    if ts == [] then []
    else
      var n := |ts| - 1;
      Dropped(ts[..n], dead) + if ts[n].tid in dead then [ts[n]] else []
  }

  lemma {:induction false} KeptOrDropped(ts: seq<Tuple>, dead: set<nat>)
    ensures multiset(ts) == multiset(Kept(ts, dead)) + multiset(Dropped(ts, dead))
  {
    if ts != [] {
      var n := |ts| - 1;
      KeptOrDropped(ts[..n], dead);
      assert ts == ts[..n] + [ts[n]];
    }
  }

  lemma KeptStep(ts: seq<Tuple>, dead: set<nat>, i: nat)
    requires i < |ts|
    ensures Kept(ts[..i + 1], dead) == Kept(ts[..i], dead) + if ts[i].tid in dead then [] else [ts[i]]
    ensures |Dropped(ts[..i + 1], dead)| == |Dropped(ts[..i], dead)| + if ts[i].tid in dead then 1 else 0
  {
    assert ts[..i + 1][..i] == ts[..i];
  }

  lemma {:induction false} KeptMember(ts: seq<Tuple>, dead: set<nat>, t: Tuple)
    ensures t in Kept(ts, dead) <==> t in ts && t.tid !in dead
    ensures t in Dropped(ts, dead) <==> t in ts && t.tid in dead
  {
    if ts != [] {
      var n := |ts| - 1;
      KeptMember(ts[..n], dead, t);
      assert ts == ts[..n] + [ts[n]];
    }
  }

  /** What blbulkdelete makes of one page. */
  function VacuumPage(p: Page, dead: set<nat>): Page {
    if !p.Live? then p
    else
      var kept := Kept(p.tuples, dead);
      if |kept| != |p.tuples| && kept == [] then Deleted else Live(kept)
  }

  /** Whether blbulkdelete offers the page, once cleaned, in the new notFullPage list. */
  predicate Offered(size: nat, p: Page) {
    p.Live? && p.tuples != [] && Room(size, |p.tuples|)
  }

  /**
   The two-pointer loop of blbulkdelete over the tuple area of one page: `itup` reads,
   `itupPtr` writes, and maxoff goes down by one for every deleted tuple.
   */
  method Compact(area: array<Tuple>, maxoff: nat, dead: set<nat>) returns (left: nat, removed: nat)
    requires maxoff <= area.Length
    modifies area
    ensures left <= maxoff && left + removed == maxoff
    ensures area[..left] == Kept(old(area[..maxoff]), dead)
    ensures removed == |Dropped(old(area[..maxoff]), dead)|
    ensures area[maxoff..] == old(area[maxoff..])
  {
    var itup, itupPtr := 0, 0;
    left, removed := maxoff, 0;
    ghost var was, kept: seq<Tuple> := area[..], [];
    while itup < maxoff
      invariant 0 <= itupPtr <= itup <= maxoff && kept == Kept(was[..itup], dead) && |kept| == itupPtr
      invariant forall k :: 0 <= k < itupPtr ==> area[k] == kept[k]
      invariant forall k :: itup <= k < area.Length ==> area[k] == was[k]
      invariant removed == |Dropped(was[..itup], dead)| && left + removed == maxoff && itup - itupPtr == removed
    {
      KeptStep(was, dead, itup);
      kept := Kept(was[..itup + 1], dead);
      if area[itup].tid in dead {
        left := left - 1;
        removed := removed + 1;
      } else {
        if itupPtr != itup {
          area[itupPtr] := area[itup];
        }
        itupPtr := itupPtr + 1;
      }
      itup := itup + 1;
    }
    assert was[..maxoff] == old(area[..maxoff]) && area[..left] == kept;
  }

  /** The loop body of blbulkdelete on a live page. */
  method CleanPage(p: Page, dead: set<nat>) returns (q: Page, removed: nat)
    requires p.Live?
    ensures q == VacuumPage(p, dead) && removed == |Dropped(p.tuples, dead)|
  {
    var ts := p.tuples;
    var area := new Tuple[|ts|](i requires 0 <= i < |ts| => ts[i]);
    assert area[..|ts|] == ts;
    var left;
    left, removed := Compact(area, |ts|, dead);
    q := p;
    if left != |ts| {
      q := if left == 0 then Deleted else Live(area[..left]);
    } else {
      NothingDropped(ts, dead);
    }
  }

  lemma {:induction false} NothingDropped(ts: seq<Tuple>, dead: set<nat>)
    requires Dropped(ts, dead) == []
    ensures Kept(ts, dead) == ts
  {
    if ts != [] { NothingDropped(ts[..|ts| - 1], dead); }
  }

  /** Cleaning a page splits its tuples into those left and those the callback named. */
  lemma VacuumPageConserves(p: Page, dead: set<nat>)
    ensures multiset(p.Contents()) ==
            multiset(VacuumPage(p, dead).Contents()) + multiset(Dropped(p.Contents(), dead))
  {
    KeptOrDropped(p.Contents(), dead);
    assert VacuumPage(p, dead).Contents() == Kept(p.Contents(), dead);
  }

  // -------------------------------------------------------------------- whole-index sums

  /** The multiset of all tuples on the first hi pages. */
  ghost function TuplesBelow(pages: seq<Page>, hi: nat): multiset<Tuple>
    requires hi <= |pages|
  {
    if hi == 0 then multiset{} else TuplesBelow(pages, hi - 1) + multiset(pages[hi - 1].Contents())
  }

  /** The multiset of all tuples on live pages. */
  ghost function AllTuples(pages: seq<Page>): multiset<Tuple> {
    TuplesBelow(pages, |pages|)
  }

  lemma {:induction false} TuplesBelowLocal(p: seq<Page>, q: seq<Page>, hi: nat)
    requires hi <= |p| && hi <= |q| && forall b :: 0 <= b < hi ==> p[b] == q[b]
    ensures TuplesBelow(p, hi) == TuplesBelow(q, hi)
  {
    if hi > 0 { TuplesBelowLocal(p, q, hi - 1); }
  }

  lemma AddBoth(a: multiset<Tuple>, b: multiset<Tuple>, x: multiset<Tuple>, y: multiset<Tuple>, c: multiset<Tuple>)
    requires a + x == b + y
    ensures (a + c) + x == (b + c) + y
  {
    assert (a + c) + x == (a + x) + c;
    assert (b + c) + y == (b + y) + c;
  }

  lemma TuplesBelowSnoc(pages: seq<Page>, hi: nat)
    requires 0 < hi <= |pages|
    ensures TuplesBelow(pages, hi) == TuplesBelow(pages, hi - 1) + multiset(pages[hi - 1].Contents())
  {}

  lemma UpdateLast(pages: seq<Page>, next: seq<Page>, b: nat)
    requires b < |pages| == |next| && forall i :: 0 <= i < b ==> next[i] == pages[i]
    ensures TuplesBelow(next, b + 1) + multiset(pages[b].Contents()) == TuplesBelow(pages, b + 1) + multiset(next[b].Contents())
  {
    TuplesBelowLocal(pages, next, b);
    TuplesBelowSnoc(pages, b + 1);
    TuplesBelowSnoc(next, b + 1);
    Swap(TuplesBelow(pages, b), multiset(next[b].Contents()), multiset(pages[b].Contents()));
  }

  lemma {:induction false} TuplesBelowUpdate(pages: seq<Page>, b: nat, p: Page, hi: nat)
    requires b < hi <= |pages|
    ensures TuplesBelow(pages[b := p], hi) + multiset(pages[b].Contents()) ==
            TuplesBelow(pages, hi) + multiset(p.Contents())
  {
    var next := pages[b := p];
    if b < hi - 1 {
      TuplesBelowUpdate(pages, b, p, hi - 1);
      TuplesBelowSnoc(pages, hi);
      TuplesBelowSnoc(next, hi);
      AddBoth(TuplesBelow(next, hi - 1), TuplesBelow(pages, hi - 1),
              multiset(pages[b].Contents()), multiset(p.Contents()), multiset(pages[hi - 1].Contents()));
    } else {
      UpdateLast(pages, next, b);
    }
  }

  lemma Swap(c: multiset<Tuple>, x: multiset<Tuple>, y: multiset<Tuple>)
    ensures (c + x) + y == (c + y) + x
  {}

  lemma AllTuplesUpdate(pages: seq<Page>, b: nat, p: Page)
    requires b < |pages|
    ensures AllTuples(pages[b := p]) + multiset(pages[b].Contents()) ==
            AllTuples(pages) + multiset(p.Contents())
  {
    TuplesBelowUpdate(pages, b, p, |pages|);
  }

  lemma AllTuplesAppend(pages: seq<Page>, p: Page)
    ensures AllTuples(pages + [p]) == AllTuples(pages) + multiset(p.Contents())
  {
    TuplesBelowLocal(pages, pages + [p], |pages|);
  }
}
