/**
 The readonly checks of verify_nbtree.c on one target page, for heapkeyspace indexes with plain
 tuples.  An ereport(ERROR) ends a check with Corrupt.  The invariant_*_offset tests appear as the
 order that NbtreeKey proves them to decide.

 Walks along right links can go round in circles.  A walk that would never end ends with Runaway
 here; `...Accepts` and `...Diverges` say of each check, without running it, when it accepts and
 when it never ends.
 */
module NbtreeCheck {
  import opened Lexicographic
  import opened NbtreeKey
  import opened NbtreePage
  import opened Optional

  // ------------------------------------------------------------------- facts about a page

  /** The first real item of a page, as bt_right_page_check_scankey picks it. */
  function FirstReal(p: Page): Option<Key> {
    var off := if p.leaf then p.FirstData() else p.FirstData() + 1;
    if off <= |p.items| then Some(p.Key(off)) else None
  }

  /** The downlink's key is a strict lower bound of the child's real items. */
  ghost predicate LowerBound(rel: seq<Page>, p: Page, off: nat) {
    p.Real(off) && Block(rel, p.Down(off)) &&
    var c := rel[p.Down(off)];
    !c.deleted && forall o :: c.Real(o) ==> Less(p.Key(off), c.Key(o))
  }

  /** `top` is the root of an interrupted multi-level deletion; b is on its leftmost branch. */
  ghost predicate DeletionTop(rel: seq<Page>, top: nat, b: nat)
    decreases if b < |rel| then rel[b].level else 0
  {
    Block(rel, b) && !rel[b].leaf && rel[b].Data(rel[b].FirstData()) &&
    var c := rel[b].Down(rel[b].FirstData());
    Block(rel, c) &&
    if rel[c].leaf then rel[c].halfDead && rel[c].HasHigh() && rel[c].items[0].down == top
    else rel[c].level + 1 == rel[b].level && DeletionTop(rel, top, c)
  }

  /** What lets a page without a downlink pass, given the page left of it. */
  ghost predicate ExcusedNext(rel: seq<Page>, b: nat, leftSplit: bool)
    requires Block(rel, b)
  {
    rel[b].Ignore() || rel[b].root || leftSplit || DeletionTop(rel, b, b)
  }

  /** bt_downlink_missing_check for a live page that the walk reached without a downlink. */
  method DownlinkMissingCheck(rel: seq<Page>, rightsplit: bool, blkno: nat) returns (res: Outcome)
    requires Block(rel, blkno) && !rel[blkno].Ignore()
    ensures res.Accepted? <==> rel[blkno].root || rightsplit || DeletionTop(rel, blkno, blkno)
    ensures !res.Runaway?
  {
    if rel[blkno].root || rightsplit { return Accepted; }
    if rel[blkno].leaf { return Corrupt; }
    var b := blkno;
    while true
      invariant Block(rel, b) && !rel[b].leaf && rel[b].Data(rel[b].FirstData())
      invariant DeletionTop(rel, blkno, b) <==> DeletionTop(rel, blkno, blkno)
      decreases rel[b].level
    {
      var c := rel[b].Down(rel[b].FirstData());
      if !Block(rel, c) { return Corrupt; }
      if rel[c].leaf {
        return Require(!rel[c].deleted && rel[c].halfDead && rel[c].HasHigh() && rel[c].items[0].down == blkno);
      }
      if rel[c].level + 1 != rel[b].level || !rel[c].Data(rel[c].FirstData()) { return Corrupt; }
      b := c;
    }
  }

  // -------------------------------------------------------------------- the child walk

  /** prevrightlink and previncompletesplit: where the walk along the child level stands. */
  datatype Walk = Walk(link: Option<nat>, split: bool)

  const START: Walk := Walk(None, false)

  /** Where the walk stands after the downlink b. */
  function After(rel: seq<Page>, b: nat): Walk {
    if 0 < b < |rel| then Walk(Some(rel[b].next), rel[b].incomplete) else START
  }

  /** One call of bt_child_highkey_check: the walk to the downlink at `off`, or to the right edge. */
  datatype Leg = Leg(target: Page, lowkey: Option<Key>, off: Option<nat>, walk: Walk) {
    function Downlink(): nat {
      if off.Some? && target.Data(off.value) then target.Down(off.value) else 0
    }

    function Start(): nat {
      if walk.link.Some? then walk.link.value else Downlink()
    }
  }

  /** The pivot that a child's high key is held against (None when there is none to be had). */
  function PivotFor(target: Page, lowkey: Option<Key>, off: Option<nat>, isDownlink: bool): Option<Key> {
    var at := if off.None? then 0 else if isDownlink then off.value + 1 else off.value;
    if target.NegInf(at) then lowkey
    else if at > |target.items| then (if target.HasHigh() then Some(target.High()) else None)
    else if at == 0 then None
    else Some(target.Key(at))
  }

  /** The high key check on one visited page: no usable high key, or the right pivot. */
  ghost predicate PivotMatch(rel: seq<Page>, b: nat, pivot: Option<Key>)
    requires Block(rel, b)
  {
    !rel[b].incomplete && !rel[b].Rightmost() && !rel[b].halfDead ==> rel[b].HasHigh() && pivot == Some(rel[b].High())
  }

  ghost predicate LevelBelow(rel: seq<Page>, target: Page, b: nat) {
    Block(rel, b) && (rel[b].HasLevel() ==> rel[b].level + 1 == target.level)
  }

  /** Block b passes the checks of one round; `split` is set if the page left of it is being split. */
  ghost predicate VisitOk(rel: seq<Page>, leg: Leg, b: nat, split: bool, first: bool) {
    LevelBelow(rel, leg.target, b) && (first && leg.walk.link.None? ==> LeftEdge(rel, b)) &&
    (first || leg.walk.link != Some(b)) && b != rel[b].prev && (b != leg.Downlink() ==> ExcusedNext(rel, b, split)) &&
    PivotMatch(rel, b, PivotFor(leg.target, leg.lowkey, leg.off, b == leg.Downlink()))
  }

  ghost function SplitBefore(rel: seq<Page>, leg: Leg, n: nat): bool {
    if n == 0 then leg.walk.link.Some? && leg.walk.split
    else
      var a := RightOf(rel, leg.Start(), n - 1);
      a < |rel| && rel[a].incomplete
  }

  /** The block of round n passes. */
  ghost predicate Round(rel: seq<Page>, leg: Leg, n: nat) {
    VisitOk(rel, leg, RightOf(rel, leg.Start(), n), SplitBefore(rel, leg, n), n == 0)
  }

  /** Round n passes and is not the last one. */
  ghost predicate StepsOver(rel: seq<Page>, leg: Leg, n: nat) {
    RightOf(rel, leg.Start(), n) != leg.Downlink() && Round(rel, leg, n)
  }

  /** Round n reaches the downlink, or the right edge where no downlink is left or the downlink is null. */
  ghost predicate Arrives(rel: seq<Page>, leg: Leg, n: nat) {
    RightOf(rel, leg.Start(), n) == leg.Downlink() && (leg.Downlink() != 0 ==> Round(rel, leg, n)) &&
    forall m: nat :: m < n ==> StepsOver(rel, leg, m)
  }

  ghost predicate LegAccepts(rel: seq<Page>, leg: Leg) {
    exists n: nat :: Arrives(rel, leg, n)
  }

  ghost predicate LegDiverges(rel: seq<Page>, leg: Leg) {
    forall n: nat :: StepsOver(rel, leg, n)
  }

  /** A walk that comes to a block twice meets the same checks again. */
  lemma {:induction false} StepsRepeat(rel: seq<Page>, leg: Leg, i: nat, j: nat, n: nat)
    requires i < j <= |rel| && RightOf(rel, leg.Start(), i) == RightOf(rel, leg.Start(), j)
    requires forall m: nat :: m <= |rel| ==> StepsOver(rel, leg, m)
    ensures StepsOver(rel, leg, n)
  {
    if n > |rel| {
      var k := n - (j - i);
      StepsRepeat(rel, leg, i, j, k);
      RightShift(rel, leg.Start(), i, j, n - j);
      RightShift(rel, leg.Start(), i, j, n - 1 - j);
      assert i + (n - j) == k && i + (n - 1 - j) == k - 1 && j + (n - j) == n && j + (n - 1 - j) == n - 1;
    }
  }

  /** A walk longer than the relation never ends. */
  lemma LongLegDiverges(rel: seq<Page>, leg: Leg)
    requires forall m: nat :: m <= |rel| ==> StepsOver(rel, leg, m)
    ensures LegDiverges(rel, leg)
  {
    forall m: nat | m <= |rel| ensures RightOf(rel, leg.Start(), m) < |rel| { assert StepsOver(rel, leg, m); }
    var i, j := RightRepeats(rel, leg.Start());
    forall n: nat ensures StepsOver(rel, leg, n) { StepsRepeat(rel, leg, i, j, n); }
  }

  lemma LegExclusive(rel: seq<Page>, leg: Leg)
    ensures !(LegAccepts(rel, leg) && LegDiverges(rel, leg))
  {
    if LegAccepts(rel, leg) {
      var n: nat :| Arrives(rel, leg, n);
      assert !StepsOver(rel, leg, n);
    }
  }

  lemma NoArrival(rel: seq<Page>, leg: Leg, n: nat, k: nat)
    requires (k < n ==> StepsOver(rel, leg, k)) && !Round(rel, leg, n)
    requires RightOf(rel, leg.Start(), n) != 0 || leg.Downlink() != 0
    ensures !Arrives(rel, leg, k)
  {
    assert k > n && Arrives(rel, leg, k) ==> StepsOver(rel, leg, n);
  }

  /** A walk that fails in round n neither arrives nor goes on for ever. */
  lemma LegFails(rel: seq<Page>, leg: Leg, n: nat)
    requires (forall m: nat :: m < n ==> StepsOver(rel, leg, m)) && !Round(rel, leg, n)
    requires RightOf(rel, leg.Start(), n) != 0 || leg.Downlink() != 0
    ensures !LegAccepts(rel, leg) && !LegDiverges(rel, leg)
  {
    assert !StepsOver(rel, leg, n);
    forall k: nat ensures !Arrives(rel, leg, k) { NoArrival(rel, leg, n, k); }
  }

  // ------------------------------------------------------------------ the target page

  /** The high key and item order checks. */
  ghost predicate ItemInOrder(p: Page, off: nat)
    requires p.Real(off)
  {
    && (p.HasHigh() ==> Leq(p.Key(off), p.High()) && (!p.leaf ==> p.Key(off) != p.High()))
    && (off < |p.items| ==> Less(p.Key(off), p.Key(off + 1)))
  }

  /** bt_right_page_check_scankey passes over the n-th page right of p. */
  ghost predicate SkipsOver(rel: seq<Page>, p: Page, n: nat) {
    var b := RightOf(rel, p.next, n);
    Block(rel, b) && rel[b].Ignore() && !rel[b].Rightmost()
  }

  /** bt_right_page_check_scankey stops at block b: the first page that is live or rightmost. */
  ghost predicate SkipsTo(rel: seq<Page>, p: Page, n: nat, b: nat) {
    b == RightOf(rel, p.next, n) && Block(rel, b) && (!rel[b].Ignore() || rel[b].Rightmost()) &&
    forall m: nat :: m < n ==> SkipsOver(rel, p, m)
  }

  ghost predicate SkipsForever(rel: seq<Page>, p: Page) {
    forall n: nat :: SkipsOver(rel, p, n)
  }

  lemma {:induction false} SkipsRepeat(rel: seq<Page>, p: Page, i: nat, j: nat, n: nat)
    requires i < j <= |rel| && RightOf(rel, p.next, i) == RightOf(rel, p.next, j)
    requires forall m: nat :: m <= |rel| ==> SkipsOver(rel, p, m)
    ensures SkipsOver(rel, p, n)
  {
    if n > |rel| {
      SkipsRepeat(rel, p, i, j, n - (j - i));
      RightShift(rel, p.next, i, j, n - j);
      assert i + (n - j) == n - (j - i) && j + (n - j) == n;
    }
  }

  lemma LongSkip(rel: seq<Page>, p: Page)
    requires forall m: nat :: m <= |rel| ==> SkipsOver(rel, p, m)
    ensures SkipsForever(rel, p)
  {
    forall m: nat | m <= |rel| ensures RightOf(rel, p.next, m) < |rel| { assert SkipsOver(rel, p, m); }
    var i, j := RightRepeats(rel, p.next);
    forall n: nat ensures SkipsOver(rel, p, n) { SkipsRepeat(rel, p, i, j, n); }
  }

  /** The walk of bt_right_page_check_scankey stops at one block at most. */
  lemma SkipsToOne(rel: seq<Page>, p: Page, n: nat, b: nat)
    requires SkipsTo(rel, p, n, b)
    ensures !SkipsForever(rel, p)
    ensures forall m: nat, c: nat :: SkipsTo(rel, p, m, c) ==> m == n && c == b
  {
    assert !SkipsOver(rel, p, n);
    forall m: nat, c: nat | SkipsTo(rel, p, m, c) ensures m == n {
      assert (m > n ==> SkipsOver(rel, p, n)) && (m < n ==> SkipsOver(rel, p, m));
    }
  }

  /** Where the last item is compared, it is below the first real item of the next page worth a look. */
  ghost predicate BelowNext(rel: seq<Page>, p: Page, key: Key) {
    exists n: nat, b: nat :: SkipsTo(rel, p, n, b) && (FirstReal(rel[b]).Some? ==> Less(key, FirstReal(rel[b]).value))
  }

  ghost predicate ItemAccepts(rel: seq<Page>, p: Page, off: nat)
    requires p.Real(off)
  {
    ItemInOrder(p, off) && (off == |p.items| && !p.Rightmost() ==> BelowNext(rel, p, p.Key(off)))
  }

  ghost predicate ItemDiverges(rel: seq<Page>, p: Page, off: nat)
    requires p.Real(off)
  {
    ItemInOrder(p, off) && off == |p.items| && !p.Rightmost() && SkipsForever(rel, p)
  }

  /** The checks on the item at `off`, with the child walk standing at w. */
  ghost predicate SlotAccepts(rel: seq<Page>, p: Page, lowkey: Option<Key>, off: nat, w: Walk)
    requires p.Data(off)
  {
    (p.Real(off) ==> ItemAccepts(rel, p, off)) &&
    (!p.leaf ==> LegAccepts(rel, Leg(p, lowkey, Some(off), w)) && (p.Real(off) ==> LowerBound(rel, p, off)))
  }

  /** bt_child_check reads the child before the walk; the metapage can be read as well. */
  ghost predicate SlotDiverges(rel: seq<Page>, p: Page, lowkey: Option<Key>, off: nat, w: Walk)
    requires p.Data(off)
  {
    || (p.Real(off) && ItemDiverges(rel, p, off))
    || ((p.Real(off) ==> ItemAccepts(rel, p, off) && Readable(rel, p, off)) && !p.leaf && LegDiverges(rel, Leg(p, lowkey, Some(off), w)))
  }

  predicate Readable(rel: seq<Page>, p: Page, off: nat)
    requires p.Data(off)
  {
    p.leaf || p.Down(off) == 0 || Block(rel, p.Down(off))
  }

  lemma SlotExclusive(rel: seq<Page>, p: Page, lowkey: Option<Key>, off: nat, w: Walk)
    requires p.Data(off)
    ensures !(SlotAccepts(rel, p, lowkey, off, w) && SlotDiverges(rel, p, lowkey, off, w))
  {
    LegExclusive(rel, Leg(p, lowkey, Some(off), w));
    if p.Real(off) && BelowNext(rel, p, p.Key(off)) {
      var n: nat, b: nat :| SkipsTo(rel, p, n, b);
      SkipsToOne(rel, p, n, b);
    }
  }

  /** Where the child walk stands when the checks come to offset off, if it stood at w before the page. */
  ghost function WalkAt(rel: seq<Page>, p: Page, off: nat, w: Walk): Walk {
    if !p.leaf && p.FirstData() < off <= |p.items| + 1 then After(rel, p.Down(off - 1)) else w
  }

  ghost predicate SlotAcceptsIn(rel: seq<Page>, p: Page, lowkey: Option<Key>, w: Walk, off: nat)
    requires p.Data(off)
  {
    SlotAccepts(rel, p, lowkey, off, WalkAt(rel, p, off, w))
  }

  ghost predicate SlotDivergesIn(rel: seq<Page>, p: Page, lowkey: Option<Key>, w: Walk, off: nat)
    requires p.Data(off)
  {
    SlotDiverges(rel, p, lowkey, off, WalkAt(rel, p, off, w))
  }

  ghost predicate SlotsBefore(rel: seq<Page>, p: Page, lowkey: Option<Key>, w: Walk, hi: nat) {
    forall off: nat :: p.Data(off) && off < hi ==> SlotAcceptsIn(rel, p, lowkey, w, off)
  }

  /** On the rightmost internal page the walk goes on to the right edge of the child level. */
  ghost function LastLeg(rel: seq<Page>, p: Page, lowkey: Option<Key>, w: Walk): Leg {
    Leg(p, lowkey, None, WalkAt(rel, p, |p.items| + 1, w))
  }

  /** bt_target_page_check accepts p, with the child walk standing at w. */
  ghost predicate PageAccepts(rel: seq<Page>, p: Page, lowkey: Option<Key>, w: Walk) {
    SlotsBefore(rel, p, lowkey, w, |p.items| + 1) &&
    (!p.leaf && p.Rightmost() ==> LegAccepts(rel, LastLeg(rel, p, lowkey, w)))
  }

  ghost predicate PageDiverges(rel: seq<Page>, p: Page, lowkey: Option<Key>, w: Walk) {
    || (exists off: nat :: p.Data(off) && SlotsBefore(rel, p, lowkey, w, off) && SlotDivergesIn(rel, p, lowkey, w, off))
    || (SlotsBefore(rel, p, lowkey, w, |p.items| + 1) && !p.leaf && p.Rightmost() && LegDiverges(rel, LastLeg(rel, p, lowkey, w)))
  }

  /** Where the child walk stands after an accepted page. */
  ghost function AfterPage(rel: seq<Page>, p: Page, w: Walk): Walk {
    if p.leaf then w else if p.Rightmost() then START else WalkAt(rel, p, |p.items| + 1, w)
  }

  /** A page that fails at offset `off` is neither accepted nor checked for ever. */
  lemma PageFails(rel: seq<Page>, p: Page, lowkey: Option<Key>, w: Walk, off: nat)
    requires p.Data(off) && SlotsBefore(rel, p, lowkey, w, off)
    requires !SlotAcceptsIn(rel, p, lowkey, w, off)
    ensures !PageAccepts(rel, p, lowkey, w)
    ensures PageDiverges(rel, p, lowkey, w) <==> SlotDivergesIn(rel, p, lowkey, w, off)
  {
    assert !SlotsBefore(rel, p, lowkey, w, |p.items| + 1);
    forall o: nat | p.Data(o) && SlotsBefore(rel, p, lowkey, w, o) && SlotDivergesIn(rel, p, lowkey, w, o) ensures o == off {
      if o < off { SlotExclusive(rel, p, lowkey, o, WalkAt(rel, p, o, w)); }
    }
  }

  lemma PagePasses(rel: seq<Page>, p: Page, lowkey: Option<Key>, w: Walk)
    requires SlotsBefore(rel, p, lowkey, w, |p.items| + 1)
    ensures PageDiverges(rel, p, lowkey, w) <==> !p.leaf && p.Rightmost() && LegDiverges(rel, LastLeg(rel, p, lowkey, w))
  {
    forall o: nat | p.Data(o) ensures !SlotDivergesIn(rel, p, lowkey, w, o) {
      assert SlotAcceptsIn(rel, p, lowkey, w, o);
      SlotExclusive(rel, p, lowkey, o, WalkAt(rel, p, o, w));
    }
  }

  /** The loop of bt_child_check over the items of the child. */
  method AllAbove(key: Key, child: Page) returns (ok: bool)
    ensures ok <==> forall o: nat :: child.Real(o) ==> Less(key, child.Key(o))
  {
    var offset := child.FirstData();
    while offset <= |child.items|
      invariant child.FirstData() <= offset
      invariant forall o: nat :: child.Real(o) && o < offset ==> Less(key, child.Key(o))
    {
      if !child.NegInf(offset) && !Less(key, child.Key(offset)) { return false; }
      offset := offset + 1;
    }
    return true;
  }

  /** The walk state of BtreeCheckState.  The target page and its low key are passed as arguments. */
  class Checker {
    const rel: seq<Page>
    var prevrightlink: Option<nat>
    var previncompletesplit: bool

    constructor (relation: seq<Page>)
      ensures rel == relation && State() == START
    {
      rel := relation;
      prevrightlink, previncompletesplit := None, false;
    }

    ghost function State(): Walk
      reads this
    {
      Walk(prevrightlink, previncompletesplit)
    }

    /** The checks of one round of bt_child_highkey_check on block b. */
    method VisitChild(target: Page, lowkey: Option<Key>, off: Option<nat>, b: nat, downlink: nat, rightsplit: bool, first: bool)
      returns (res: Outcome)
      requires downlink == Leg(target, lowkey, off, State()).Downlink()
      ensures res.Accepted? <==> VisitOk(rel, Leg(target, lowkey, off, State()), b, rightsplit, first)
      ensures !res.Runaway?
    {
      if !Block(rel, b) { return Corrupt; }
      var page := rel[b];
      if first && prevrightlink.None? {
        var edge := LeftmostIgnoringHalfDead(rel, b);
        if edge != Some(true) { return Corrupt; }
      }
      if page.HasLevel() && page.level + 1 != target.level { return Corrupt; }
      if (!first && prevrightlink == Some(b)) || b == page.prev { return Corrupt; }
      if b != downlink && !page.Ignore() {
        :- DownlinkMissingCheck(rel, rightsplit, b);
      }
      if !page.incomplete && !page.Rightmost() && !page.halfDead {
        if !page.HasHigh() || PivotFor(target, lowkey, off, b == downlink) != Some(page.High()) { return Corrupt; }
      }
      return Accepted;
    }

    /**
     bt_child_highkey_check: from the last downlink's right link, walk right to the downlink at
     offset `off` of the target (without one, to the right edge) and hold high keys against pivots
     on the way.
     */
    method ChildHighkeyCheck(target: Page, lowkey: Option<Key>, off: Option<nat>) returns (res: Outcome)
      requires off.Some? ==> target.Data(off.value)
      modifies this`prevrightlink, this`previncompletesplit
      ensures res.Accepted? <==> LegAccepts(rel, Leg(target, lowkey, off, old(State())))
      ensures res.Runaway? <==> LegDiverges(rel, Leg(target, lowkey, off, old(State())))
      ensures res.Accepted? ==> State() == After(rel, Leg(target, lowkey, off, old(State())).Downlink())
    {
      ghost var leg := Leg(target, lowkey, off, State());
      var downlink := if off.Some? then target.Down(off.value) else 0;
      var blkno, rightsplit, first := downlink, false, true;
      if prevrightlink.Some? {
        blkno, rightsplit := prevrightlink.value, previncompletesplit;
      }
      LegExclusive(rel, leg);
      var rounds: nat := 0;
      while true
        invariant State() == leg.walk && rounds <= |rel| + 1
        invariant blkno == RightOf(rel, leg.Start(), rounds) && rightsplit == SplitBefore(rel, leg, rounds) && first == (rounds == 0)
        invariant forall m: nat :: m < rounds ==> StepsOver(rel, leg, m)
        decreases |rel| + 1 - rounds
      {
        if rounds > |rel| {
          LongLegDiverges(rel, leg);
          return Runaway;
        }
        if blkno == 0 && downlink == 0 {
          assert Arrives(rel, leg, rounds);
          prevrightlink, previncompletesplit := None, false;
          return Accepted;
        }
        res := VisitChild(target, lowkey, off, blkno, downlink, rightsplit, first);
        if !res.Accepted? {
          LegFails(rel, leg, rounds);
          return;
        }
        if blkno == downlink {
          assert Arrives(rel, leg, rounds);
          prevrightlink, previncompletesplit := Some(rel[blkno].next), rel[blkno].incomplete;
          return Accepted;
        }
        blkno, rightsplit, first, rounds := rel[blkno].next, rel[blkno].incomplete, false, rounds + 1;
      }
    }

    /** bt_right_page_check_scankey: the first real item of the next page that is live or rightmost. */
    method RightScankey(target: Page) returns (res: Outcome, key: Option<Key>)
      ensures target.Rightmost() ==> res.Accepted? && key.None?
      ensures !target.Rightmost() ==>
        (res.Accepted? <==> exists n: nat, b: nat :: SkipsTo(rel, target, n, b)) && (res.Runaway? <==> SkipsForever(rel, target))
      ensures !target.Rightmost() && res.Accepted? ==>
        forall n: nat, b: nat :: SkipsTo(rel, target, n, b) ==> key == FirstReal(rel[b])
    {
      if target.Rightmost() { return Accepted, None; }
      var targetnext := target.next;
      var rounds: nat := 0;
      while true
        invariant rounds <= |rel| + 1 && targetnext == RightOf(rel, target.next, rounds)
        invariant forall m: nat :: m < rounds ==> SkipsOver(rel, target, m)
        decreases |rel| + 1 - rounds
      {
        if rounds > |rel| {
          LongSkip(rel, target);
          forall n: nat, b: nat ensures !SkipsTo(rel, target, n, b) { assert SkipsOver(rel, target, n); }
          return Runaway, None;
        }
        if !Block(rel, targetnext) {
          assert !SkipsOver(rel, target, rounds);
          forall n: nat, b: nat ensures !SkipsTo(rel, target, n, b) {
            if n < rounds { assert SkipsOver(rel, target, n); }
          }
          return Corrupt, None;
        }
        if !rel[targetnext].Ignore() || rel[targetnext].Rightmost() { break; }
        targetnext, rounds := rel[targetnext].next, rounds + 1;
      }
      assert SkipsTo(rel, target, rounds, targetnext);
      SkipsToOne(rel, target, rounds, targetnext);
      return Accepted, FirstReal(rel[targetnext]);
    }

    /** The high key, item order and last item checks of bt_target_page_check on one real item. */
    method ItemCheck(target: Page, off: nat) returns (res: Outcome)
      requires target.Real(off)
      ensures res.Accepted? <==> ItemAccepts(rel, target, off)
      ensures res.Runaway? <==> ItemDiverges(rel, target, off)
    {
      var key := target.Key(off);
      if target.HasHigh() {
        if target.leaf {
          if !Leq(key, target.High()) { return Corrupt; }
        } else if !Less(key, target.High()) {
          return Corrupt;
        }
      }
      if off + 1 <= |target.items| && !Less(key, target.Key(off + 1)) { return Corrupt; }
      if off == |target.items| {
        var rightkey;
        res, rightkey := RightScankey(target);
        if !res.Accepted? { return; }
        if rightkey.Some? && !Less(key, rightkey.value) { return Corrupt; }
        if !target.Rightmost() {
          ghost var n: nat, b: nat :| SkipsTo(rel, target, n, b);
          assert BelowNext(rel, target, key);
        }
      }
      return Accepted;
    }

    /** bt_child_check, but for its call of bt_child_highkey_check. */
    method ChildCheck(target: Page, off: nat) returns (res: Outcome)
      requires target.Real(off)
      ensures res.Accepted? <==> LowerBound(rel, target, off)
      ensures !res.Runaway?
    {
      var childblock := target.Down(off);
      if !Block(rel, childblock) || rel[childblock].deleted { return Corrupt; }
      var below := AllAbove(target.Key(off), rel[childblock]);
      return Require(below);
    }

    /** One round of the loop of bt_target_page_check. */
    method OneItem(target: Page, lowkey: Option<Key>, off: nat) returns (res: Outcome)
      requires target.Data(off)
      modifies this`prevrightlink, this`previncompletesplit
      ensures res.Accepted? <==> SlotAccepts(rel, target, lowkey, off, old(State()))
      ensures res.Runaway? <==> SlotDiverges(rel, target, lowkey, off, old(State()))
      ensures res.Accepted? ==> State() == if target.leaf then old(State()) else After(rel, target.Down(off))
    {
      LegExclusive(rel, Leg(target, lowkey, Some(off), State()));
      SlotExclusive(rel, target, lowkey, off, State());
      if !target.NegInf(off) {
        :- ItemCheck(target, off);
        if !Readable(rel, target, off) { return Corrupt; }
      }
      if target.leaf { return Accepted; }
      :- ChildHighkeyCheck(target, lowkey, Some(off));
      if target.NegInf(off) { return Accepted; }
      res := ChildCheck(target, off);
    }

    /** bt_target_page_check */
    method TargetPageCheck(target: Page, lowkey: Option<Key>) returns (res: Outcome)
      requires target.Sane() && !target.deleted
      modifies this`prevrightlink, this`previncompletesplit
      ensures res.Accepted? <==> PageAccepts(rel, target, lowkey, old(State()))
      ensures res.Runaway? <==> PageDiverges(rel, target, lowkey, old(State()))
      ensures res.Accepted? ==> State() == AfterPage(rel, target, old(State()))
    {
      ghost var w := State();
      var offset := target.FirstData();
      while offset <= |target.items|
        invariant target.FirstData() <= offset <= |target.items| + 1
        invariant SlotsBefore(rel, target, lowkey, w, offset) && State() == WalkAt(rel, target, offset, w)
      {
        SlotExclusive(rel, target, lowkey, offset, State());
        res := OneItem(target, lowkey, offset);
        if !res.Accepted? {
          PageFails(rel, target, lowkey, w, offset);
          return;
        }
        offset := offset + 1;
      }
      PagePasses(rel, target, lowkey, w);
      if !target.leaf && target.Rightmost() {
        LegExclusive(rel, LastLeg(rel, target, lowkey, w));
        :- ChildHighkeyCheck(target, lowkey, None);
      }
      return Accepted;
    }
  }
}
