/**
 VACUUM of a bloom index with no concurrent activity: bulk deletion and cleanup.
 */
module BloomVacuum {
  import opened BloomSignature
  import opened BloomPage

  /** Blocks from `lo` on that are worth offering to inserters, in block order. */
  function OfferedBlocks(size: nat, pages: seq<Page>, hi: nat): (r: seq<nat>)
    requires 1 <= hi <= |pages|
  {
    if hi == 1 then []
    else OfferedBlocks(size, pages, hi - 1) + if Offered(size, pages[hi - 1]) then [hi - 1] else []
  }

  function FirstN(s: seq<nat>, n: nat): seq<nat> {
    if |s| <= n then s else s[..n]
  }

  /** OfferedBlocks lists exactly the offered blocks, in increasing order. */
  lemma {:induction false} OfferedBlocksExact(size: nat, pages: seq<Page>, hi: nat)
    requires 1 <= hi <= |pages|
    ensures forall b :: b in OfferedBlocks(size, pages, hi) <==> 1 <= b < hi && Offered(size, pages[b])
    ensures forall i, j :: 0 <= i < j < |OfferedBlocks(size, pages, hi)| ==>
      OfferedBlocks(size, pages, hi)[i] < OfferedBlocks(size, pages, hi)[j]
  {
    if hi > 1 {
      OfferedBlocksExact(size, pages, hi - 1);
      var r := OfferedBlocks(size, pages, hi - 1);
      assert forall i :: 0 <= i < |r| ==> r[i] in r;
    }
  }

  /** Tuples that a bulk delete removes from blocks 1 to hi - 1. */
  ghost function DroppedBelow(pages: seq<Page>, dead: set<nat>, hi: nat): seq<Tuple>
    requires 1 <= hi <= |pages|
  {
    if hi == 1 then []
    else DroppedBelow(pages, dead, hi - 1) + Dropped(pages[hi - 1].Contents(), dead)
  }

  /** The file after a bulk delete: every data page cleaned, the metapage in place. */
  ghost function Vacuumed(pages: seq<Page>, dead: set<nat>): (r: seq<Page>)
    requires pages != []
    ensures |r| == |pages| && r[0] == pages[0]
    ensures forall b :: 1 <= b < |r| ==> r[b] == VacuumPage(pages[b], dead)
  {
    seq(|pages|, b requires 0 <= b < |pages| => if b == 0 then pages[0] else VacuumPage(pages[b], dead))
  }

  /** The list of offered blocks as the page loop builds it, within the room of the metapage. */
  function OfferList(size: nat, pages: seq<Page>, hi: nat): seq<nat>
    requires 1 <= hi <= |pages|
  {
    if hi == 1 then []
    else
      var list := OfferList(size, pages, hi - 1);
      if Offered(size, pages[hi - 1]) && |list| < META_BLOCKS then list + [hi - 1] else list
  }

  /** The loop keeps exactly the first META_BLOCKS offered blocks. */
  lemma {:induction false} OfferListIsFirst(size: nat, pages: seq<Page>, hi: nat)
    requires 1 <= hi <= |pages|
    ensures OfferList(size, pages, hi) == FirstN(OfferedBlocks(size, pages, hi), META_BLOCKS)
  {
    if hi > 1 {
      OfferListIsFirst(size, pages, hi - 1);
      var all := OfferedBlocks(size, pages, hi - 1);
      if |all| >= META_BLOCKS { assert (all + [hi - 1])[..META_BLOCKS] == all[..META_BLOCKS]; }
    }
  }

  /** One round of the page loop of blbulkdelete: the cleaned page, and the list with its block if offered. */
  method CleanBlock(size: nat, page: Page, blkno: nat, dead: set<nat>, list: seq<nat>)
    returns (cleaned: Page, offered: seq<nat>, removed: nat)
    ensures cleaned == VacuumPage(page, dead) && removed == |Dropped(page.Contents(), dead)|
    ensures offered == if Offered(size, cleaned) && |list| < META_BLOCKS then list + [blkno] else list
  {
    cleaned, offered, removed := page, list, 0;
    if page.Live? {
      cleaned, removed := CleanPage(page, dead);
      if Offered(size, cleaned) && |list| < META_BLOCKS { offered := list + [blkno]; }
    }
  }

  lemma VacuumStep(size: nat, was: seq<Page>, goal: seq<Page>, dead: set<nat>, b: nat)
    requires 1 <= b < |was| == |goal|
    ensures |DroppedBelow(was, dead, b + 1)| == |DroppedBelow(was, dead, b)| + |Dropped(was[b].Contents(), dead)|
    ensures var list := OfferList(size, goal, b);
      OfferList(size, goal, b + 1) == if Offered(size, goal[b]) && |list| < META_BLOCKS then list + [b] else list
  {}

  /** The page loop of blbulkdelete; the metapage is written after it. */
  method VacuumPages(size: nat, was: seq<Page>, dead: set<nat>, removedBefore: nat)
    returns (file: seq<Page>, list: seq<nat>, removed: nat)
    requires was != []
    ensures file == Vacuumed(was, dead) && list == OfferList(size, file, |file|)
    ensures removed == removedBefore + |DroppedBelow(was, dead, |was|)|
  {
    file, list, removed := was, [], removedBefore;
    ghost var goal := Vacuumed(was, dead);
    var blkno := 1;
    while blkno < |file|
      invariant 1 <= blkno <= |file| == |was|
      invariant forall b :: 0 <= b < |file| ==> file[b] == if b < blkno then goal[b] else was[b]
      invariant removed == removedBefore + |DroppedBelow(was, dead, blkno)|
      invariant list == OfferList(size, goal, blkno)
    {
      var page, n;
      VacuumStep(size, was, goal, dead, blkno);
      page, list, n := CleanBlock(size, file[blkno], blkno, dead, list);
      file, removed := file[blkno := page], removed + n;
      blkno := blkno + 1;
    }
    assert file == goal;
  }

  class BloomIndex {
    const opts: Options
    var pages: seq<Page>
    var nStart: nat
    var nEnd: nat
    var notFull: seq<nat>
    var fsm: set<nat>

    constructor (o: Options, file: seq<Page>, map_: set<nat>)
      requires o.Valid() && file != [] && file[0] == Meta
      ensures opts == o && pages == file && fsm == map_ && Valid()
    {
      opts, pages, fsm := o, file, map_;
      nStart, nEnd := 0, 0;
      notFull := seq(META_BLOCKS, _ => 0);
    }

    ghost predicate Valid()
      reads this
    {
      opts.Valid() && pages != [] && pages[0] == Meta && |notFull| == META_BLOCKS
    }

    /** blbulkdelete */
    method BulkDelete(dead: set<nat>, removedBefore: nat) returns (removed: nat)
      requires Valid()
      modifies this
      ensures Valid() && fsm == old(fsm)
      ensures pages == Vacuumed(old(pages), dead)
      ensures removed == removedBefore + |DroppedBelow(old(pages), dead, |old(pages)|)|
      ensures nStart == 0 && nEnd <= META_BLOCKS
      ensures notFull[..nEnd] == FirstN(OfferedBlocks(TupleSize(opts), pages, |pages|), META_BLOCKS)
      ensures notFull[nEnd..] == old(notFull)[nEnd..]
    {
      var list: seq<nat>;
      pages, list, removed := VacuumPages(TupleSize(opts), pages, dead, removedBefore);
      OfferListIsFirst(TupleSize(opts), pages, |pages|);
      notFull := list + notFull[|list|..];
      nStart, nEnd := 0, |list|;
    }

    /** blvacuumcleanup */
    method VacuumCleanup() returns (numPages: nat, pagesFree: nat, numTuples: nat)
      requires Valid()
      modifies this`fsm
      ensures numPages == |pages|
      ensures pagesFree == |FreeBlocks(pages, |pages|)|
      ensures numTuples == |AllTuples(pages)|
      ensures fsm == old(fsm) + FreeBlocks(pages, |pages|)
    {
      numPages := |pages|;
      var freed;
      freed, pagesFree, numTuples := ScanForFree(pages);
      fsm := fsm + freed;
    }
  }

  /** The page loop of blvacuumcleanup: blocks to record as free, their number, and live tuples. */
  method ScanForFree(file: seq<Page>) returns (freed: set<nat>, pagesFree: nat, numTuples: nat)
    requires file != [] && file[0] == Meta
    ensures freed == FreeBlocks(file, |file|) && pagesFree == |freed|
    ensures numTuples == |AllTuples(file)|
  {
    freed, pagesFree, numTuples := {}, 0, 0;
    var blkno := 1;
    while blkno < |file|
      invariant 1 <= blkno <= |file|
      invariant freed == FreeBlocks(file, blkno) && pagesFree == |freed|
      invariant numTuples == |TuplesBelow(file, blkno)|
    {
      freed, pagesFree, numTuples := OneFree(file, blkno, freed, pagesFree, numTuples);
      blkno := blkno + 1;
    }
  }

  /** One round of that loop. */
  method OneFree(file: seq<Page>, b: nat, freed0: set<nat>, pagesFree0: nat, numTuples0: nat)
    returns (freed: set<nat>, pagesFree: nat, numTuples: nat)
    requires 1 <= b < |file| && freed0 == FreeBlocks(file, b) && pagesFree0 == |freed0| && numTuples0 == |TuplesBelow(file, b)|
    ensures freed == FreeBlocks(file, b + 1) && pagesFree == |freed| && numTuples == |TuplesBelow(file, b + 1)|
  {
    FreeBlocksStep(file, b);
    freed, pagesFree, numTuples := freed0, pagesFree0, numTuples0;
    if file[b].Free() {
      freed := freed + {b};
      pagesFree := pagesFree + 1;
    } else {
      numTuples := numTuples + |file[b].Contents()|;
    }
  }

  ghost function FreeBlocks(pages: seq<Page>, hi: nat): set<nat>
    requires hi <= |pages|
  {
    set b | 1 <= b < hi && pages[b].Free()
  }

  lemma FreeBlocksStep(pages: seq<Page>, b: nat)
    requires 1 <= b < |pages|
    ensures FreeBlocks(pages, b + 1) == FreeBlocks(pages, b) + (if pages[b].Free() then {b} else {})
    ensures |FreeBlocks(pages, b + 1)| == |FreeBlocks(pages, b)| + if pages[b].Free() then 1 else 0
    ensures |TuplesBelow(pages, b + 1)| == |TuplesBelow(pages, b)| + |pages[b].Contents()|
  {
    assert b !in FreeBlocks(pages, b);
    assert FreeBlocks(pages, b + 1) == FreeBlocks(pages, b) + (if pages[b].Free() then {b} else {});
  }

  /** Bulk deletion loses nothing: what was there is what is left plus what the callback named. */
  lemma BulkDeleteConserves(was: seq<Page>, dead: set<nat>)
    requires was != [] && was[0] == Meta
    ensures AllTuples(was) == AllTuples(Vacuumed(was, dead)) + multiset(DroppedBelow(was, dead, |was|))
  {
    ConservesBelow(was, Vacuumed(was, dead), dead, |was|);
  }

  lemma {:induction false} ConservesBelow(was: seq<Page>, now: seq<Page>, dead: set<nat>, hi: nat)
    requires was != [] && |now| == |was| && was[0] == now[0] == Meta && 1 <= hi <= |was|
    requires forall b :: 1 <= b < |was| ==> now[b] == VacuumPage(was[b], dead)
    ensures TuplesBelow(was, hi) == TuplesBelow(now, hi) + multiset(DroppedBelow(was, dead, hi))
  {
    if hi > 1 {
      ConservesBelow(was, now, dead, hi - 1);
      VacuumPageConserves(was[hi - 1], dead);
      SumsJoin(TuplesBelow(was, hi - 1), TuplesBelow(now, hi - 1), DroppedBelow(was, dead, hi - 1),
               multiset(was[hi - 1].Contents()), multiset(now[hi - 1].Contents()), Dropped(was[hi - 1].Contents(), dead));
    }
  }

  lemma SumsJoin(a: multiset<Tuple>, b: multiset<Tuple>, c: seq<Tuple>, x: multiset<Tuple>, y: multiset<Tuple>, z: seq<Tuple>)
    requires a == b + multiset(c) && x == y + multiset(z)
    ensures a + x == (b + y) + multiset(c + z)
  {
    assert multiset(c + z) == multiset(c) + multiset(z);
  }

  /** A page is deleted by VACUUM exactly when its last tuples were dead. */
  lemma DeletedIffEmptied(p: Page, dead: set<nat>)
    ensures (VacuumPage(p, dead).Deleted? && !p.Deleted?) <==>
      p.Live? && p.tuples != [] && forall t :: t in p.tuples ==> t.tid in dead
  {
    if p.Live? && p.tuples != [] {
      forall t ensures t in Kept(p.tuples, dead) <==> t in p.tuples && t.tid !in dead { KeptMember(p.tuples, dead, t); }
      var kept := Kept(p.tuples, dead);
      if kept != [] {
        assert kept[0] in kept;
      } else {
        assert forall t :: t in p.tuples ==> t !in kept;
      }
    }
  }
}
