/**
 What an accepted page and an accepted level are: their items in order, the children's keys within
 the parent's pivots, and the child level reached downlink after downlink.
 */
module NbtreeFacts {
  import opened Distinctness
  import opened NbtreeKey
  import opened NbtreePage
  import opened NbtreeCheck
  import opened NbtreeLevel
  import opened Optional

  // -------------------------------------------------------------------- accepted pages

  /** The key right of a downlink: the next pivot, or the high key after the last one. */
  function NextPivot(p: Page, off: nat): Option<Key> {
    if off + 1 <= |p.items| then Some(p.Key(off + 1))
    else if p.HasHigh() then Some(p.High()) else None
  }

  /** The child's high key is the parent's next pivot, unless the child has no trustworthy one. */
  ghost predicate HighMatch(rel: seq<Page>, p: Page, off: nat) {
    p.Data(off) && Block(rel, p.Down(off)) &&
    var c := rel[p.Down(off)];
    !c.incomplete && !c.Rightmost() && !c.halfDead ==> c.HasHigh() && NextPivot(p, off) == Some(c.High())
  }

  ghost predicate ChildKnown(rel: seq<Page>, p: Page, off: nat)
    requires p.Data(off)
  {
    HighMatch(rel, p, off) && LevelBelow(rel, p, p.Down(off)) && (p.Real(off) ==> LowerBound(rel, p, off))
  }

  /** Block b is not the last one of its level. */
  ghost predicate GoesOn(rel: seq<Page>, b: nat) {
    b != 0 ==> b < |rel| && !rel[b].Rightmost()
  }

  /** What the checks establish of a page; only the minus infinity item may have a null downlink. */
  ghost predicate Checked(rel: seq<Page>, p: Page) {
    (forall off: nat :: p.Real(off) ==> ItemAccepts(rel, p, off)) &&
    (!p.leaf ==> forall off: nat :: p.Data(off) && !(p.NegInf(off) && p.Down(off) == 0) ==> ChildKnown(rel, p, off)) &&
    (!p.leaf ==> forall off: nat :: p.Data(off) && off < |p.items| ==> GoesOn(rel, p.Down(off)))
  }

  lemma LegFacts(rel: seq<Page>, leg: Leg)
    requires LegAccepts(rel, leg) && leg.Downlink() != 0
    ensures VisitOk(rel, leg, leg.Downlink(), true, false) || VisitOk(rel, leg, leg.Downlink(), true, true)
    ensures leg.walk.link != Some(0)
  {
    var n: nat :| Arrives(rel, leg, n);
    assert Round(rel, leg, n);
    assert n > 0 ==> StepsOver(rel, leg, 0);
  }

  lemma SlotFacts(rel: seq<Page>, p: Page, lowkey: Option<Key>, off: nat, w: Walk)
    requires p.Data(off) && !p.leaf && SlotAccepts(rel, p, lowkey, off, w) && !(p.NegInf(off) && p.Down(off) == 0)
    ensures ChildKnown(rel, p, off) && w.link != Some(0)
  {
    LegFacts(rel, Leg(p, lowkey, Some(off), w));
  }

  lemma PageFacts(rel: seq<Page>, p: Page, lowkey: Option<Key>, w: Walk)
    requires PageAccepts(rel, p, lowkey, w)
    ensures Checked(rel, p)
  {
    forall off: nat | p.Real(off) ensures ItemAccepts(rel, p, off) { assert SlotAcceptsIn(rel, p, lowkey, w, off); }
    if !p.leaf {
      forall off: nat | p.Data(off) && !(p.NegInf(off) && p.Down(off) == 0) ensures ChildKnown(rel, p, off) {
        assert SlotAcceptsIn(rel, p, lowkey, w, off);
        SlotFacts(rel, p, lowkey, off, WalkAt(rel, p, off, w));
      }
      forall off: nat | p.Data(off) && off < |p.items| ensures GoesOn(rel, p.Down(off)) {
        assert p.Data(off + 1) && SlotAcceptsIn(rel, p, lowkey, w, off + 1);
        SlotFacts(rel, p, lowkey, off + 1, WalkAt(rel, p, off + 1, w));
        if p.Down(off) != 0 { assert ChildKnown(rel, p, off); }
      }
    }
  }

  // -------------------------------------------------------------------- the child level

  ghost function Last<T>(s: seq<T>): T
    requires s != []
  {
    s[|s| - 1]
  }

  /** Why a page on the child level may lack a downlink. */
  ghost predicate Excused(rel: seq<Page>, trail: seq<nat>, i: nat)
    requires i < |trail| && IsChain(rel, trail)
  {
    rel[trail[i]].Ignore() || rel[trail[i]].root || (i > 0 && rel[trail[i - 1]].incomplete) ||
    DeletionTop(rel, trail[i], trail[i])
  }

  /** The trail is a chain from the left edge; pages without a downlink on it are excused. */
  ghost predicate TrailOk(rel: seq<Page>, trail: seq<nat>, linked: seq<bool>) {
    |linked| == |trail| && IsChain(rel, trail) &&
    (trail != [] ==> LeftEdge(rel, trail[0]) && linked[0]) &&
    forall i :: 0 <= i < |trail| && !linked[i] ==> Excused(rel, trail, i)
  }

  /** The blocks of a trail that were reached as downlinks. */
  ghost function Picked(trail: seq<nat>, linked: seq<bool>): seq<nat>
    requires |trail| == |linked|
  {
    if trail == [] then []
    else
      var n := |trail| - 1;
      Picked(trail[..n], linked[..n]) + if linked[n] then [trail[n]] else []
  }

  lemma PickedSnoc(trail: seq<nat>, linked: seq<bool>, b: nat, l: bool)
    requires |trail| == |linked|
    ensures Picked(trail + [b], linked + [l]) == Picked(trail, linked) + if l then [b] else []
  {
    assert (trail + [b])[..|trail|] == trail && (linked + [l])[..|trail|] == linked;
  }

  lemma TrailSnoc(rel: seq<Page>, trail: seq<nat>, linked: seq<bool>, b: nat, l: bool)
    requires TrailOk(rel, trail, linked) && Block(rel, b)
    requires trail != [] ==> b == rel[Last(trail)].next
    requires trail == [] ==> l && LeftEdge(rel, b)
    requires !l ==> ExcusedNext(rel, b, trail != [] && rel[Last(trail)].incomplete)
    ensures TrailOk(rel, trail + [b], linked + [l])
    ensures Picked(trail + [b], linked + [l]) == Picked(trail, linked) + if l then [b] else []
  {
    PickedSnoc(trail, linked, b, l);
    var t, k := trail + [b], linked + [l];
    assert IsChain(rel, t);
    forall i | 0 <= i < |t| && !k[i] ensures Excused(rel, t, i) {
      if i < |trail| { assert Excused(rel, trail, i); }
    }
  }

  /** The walk stands at the end of the trail. */
  ghost predicate Fits(rel: seq<Page>, w: Walk, trail: seq<nat>, linked: seq<bool>) {
    TrailOk(rel, trail, linked) && w == if trail == [] then START else After(rel, Last(trail))
  }

  /** The blocks that a leg passes over extend the trail. */
  lemma {:induction false} LegExtends(rel: seq<Page>, leg: Leg, t: seq<nat>, l: seq<bool>, n: nat)
    returns (trail: seq<nat>, linked: seq<bool>)
    requires Fits(rel, leg.walk, t, l) && t != [] && forall m: nat :: m < n ==> StepsOver(rel, leg, m)
    ensures TrailOk(rel, trail, linked) && t <= trail && Picked(trail, linked) == Picked(t, l)
    ensures rel[Last(trail)].next == RightOf(rel, leg.Start(), n) && rel[Last(trail)].incomplete == SplitBefore(rel, leg, n)
  {
    assert Block(rel, Last(t));
    if n == 0 { return t, l; }
    trail, linked := LegExtends(rel, leg, t, l, n - 1);
    assert StepsOver(rel, leg, n - 1);
    TrailSnoc(rel, trail, linked, RightOf(rel, leg.Start(), n - 1), false);
    trail, linked := trail + [RightOf(rel, leg.Start(), n - 1)], linked + [false];
  }

  /** From (t0, l0) the walk went on to the downlink b. */
  ghost predicate Stepped(rel: seq<Page>, t0: seq<nat>, l0: seq<bool>, t: seq<nat>, l: seq<bool>, b: nat) {
    |t0| == |l0| && |t| == |l| && t != [] && Last(t) == b && t0 < t && Picked(t, l) == Picked(t0, l0) + [b]
  }

  lemma LegArrives(rel: seq<Page>, leg: Leg, t: seq<nat>, l: seq<bool>) returns (trail: seq<nat>, linked: seq<bool>)
    requires LegAccepts(rel, leg) && Fits(rel, leg.walk, t, l) && leg.Downlink() != 0
    ensures Fits(rel, After(rel, leg.Downlink()), trail, linked) && Stepped(rel, t, l, trail, linked, leg.Downlink())
  {
    var n: nat :| Arrives(rel, leg, n);
    assert Round(rel, leg, n);
    trail, linked := t, l;
    if t != [] {
      trail, linked := LegExtends(rel, leg, t, l, n);
    } else {
      assert n > 0 ==> StepsOver(rel, leg, 0);
    }
    TrailSnoc(rel, trail, linked, leg.Downlink(), true);
    trail, linked := trail + [leg.Downlink()], linked + [true];
  }

  lemma LegToEdge(rel: seq<Page>, leg: Leg, t: seq<nat>, l: seq<bool>) returns (trail: seq<nat>, linked: seq<bool>)
    requires LegAccepts(rel, leg) && Fits(rel, leg.walk, t, l) && t != [] && leg.Downlink() == 0
    ensures TrailOk(rel, trail, linked) && t <= trail && Picked(trail, linked) == Picked(t, l) && rel[Last(trail)].next == 0
  {
    var n: nat :| Arrives(rel, leg, n);
    trail, linked := LegExtends(rel, leg, t, l, n);
  }

  /** The downlinks at the data offsets of a page up to hi. */
  function DownsTo(p: Page, hi: nat): seq<nat>
    requires hi <= |p.items|
  {
    if hi < p.FirstData() then [] else DownsTo(p, hi - 1) + [p.Down(hi)]
  }

  function Downs(p: Page): seq<nat> {
    DownsTo(p, |p.items|)
  }

  /** The minus infinity item has a downlink. */
  ghost predicate Full(p: Page) {
    !p.leaf && p.Data(p.FirstData()) ==> p.Down(p.FirstData()) != 0
  }

  /** From (t0, l0) the walk went over the downlinks of the target below offset `hi`. */
  ghost predicate Followed(p: Page, t0: seq<nat>, l0: seq<bool>, t: seq<nat>, l: seq<bool>, hi: nat)
    requires p.FirstData() <= hi <= |p.items| + 1
  {
    |t0| == |l0| && |t| == |l| && t0 <= t && Picked(t, l) == Picked(t0, l0) + DownsTo(p, hi - 1) &&
    (hi > p.FirstData() ==> t != [])
  }

  lemma {:induction false} PageTrail(rel: seq<Page>, p: Page, lowkey: Option<Key>, w: Walk, t: seq<nat>, l: seq<bool>, hi: nat)
    returns (trail: seq<nat>, linked: seq<bool>)
    requires !p.leaf && Full(p) && p.FirstData() <= hi <= |p.items| + 1 && SlotsBefore(rel, p, lowkey, w, hi) && Fits(rel, w, t, l)
    ensures Fits(rel, WalkAt(rel, p, hi, w), trail, linked) && Followed(p, t, l, trail, linked, hi)
  {
    if hi == p.FirstData() {
      assert DownsTo(p, hi - 1) == [];
      return t, l;
    }
    var off := hi - 1;
    assert p.Data(off) && SlotAcceptsIn(rel, p, lowkey, w, off);
    var t1, l1 := PageTrail(rel, p, lowkey, w, t, l, off);
    trail, linked := LegArrives(rel, Leg(p, lowkey, Some(off), WalkAt(rel, p, off, w)), t1, l1);
  }

  /** Where the trail ends after page p: at its last child, or at the right edge when p is rightmost. */
  ghost predicate FitsAfter(rel: seq<Page>, p: Page, trail: seq<nat>, linked: seq<bool>) {
    TrailOk(rel, trail, linked) && trail != [] &&
    if p.Rightmost() then rel[Last(trail)].next == 0 else Fits(rel, AfterPage(rel, p, START), trail, linked)
  }

  lemma WholePageTrail(rel: seq<Page>, p: Page, lowkey: Option<Key>, w: Walk, t: seq<nat>, l: seq<bool>)
    returns (trail: seq<nat>, linked: seq<bool>)
    requires !p.leaf && Full(p) && p.Data(p.FirstData()) && PageAccepts(rel, p, lowkey, w) && Fits(rel, w, t, l)
    ensures FitsAfter(rel, p, trail, linked) && Picked(trail, linked) == Picked(t, l) + Downs(p)
  {
    trail, linked := PageTrail(rel, p, lowkey, w, t, l, |p.items| + 1);
    if p.Rightmost() { trail, linked := LegToEdge(rel, LastLeg(rel, p, lowkey, w), trail, linked); }
  }

  // -------------------------------------------------------------------- accepted levels

  ghost function ChainTo(rel: seq<Page>, b: nat, n: nat): (r: seq<nat>)
    ensures |r| == n && forall i :: 0 <= i < n ==> r[i] == RightOf(rel, b, i)
  {
    if n == 0 then [] else ChainTo(rel, b, n - 1) + [RightOf(rel, b, n - 1)]
  }

  /** The downlinks of the live pages of a level, left to right. */
  ghost function LevelDowns(rel: seq<Page>, chain: seq<nat>): seq<nat>
    requires forall i :: 0 <= i < |chain| ==> chain[i] < |rel|
  {
    if chain == [] then []
    else
      var n := |chain| - 1;
      LevelDowns(rel, chain[..n]) + if rel[chain[n]].Ignore() then [] else Downs(rel[chain[n]])
  }

  lemma LevelDownsSnoc(rel: seq<Page>, chain: seq<nat>, b: nat)
    requires b < |rel| && forall i :: 0 <= i < |chain| ==> chain[i] < |rel|
    ensures LevelDowns(rel, chain + [b]) == LevelDowns(rel, chain) + if rel[b].Ignore() then [] else Downs(rel[b])
  {
    assert (chain + [b])[..|chain|] == chain;
  }

  /** What the level walk establishes of the page at position i of its chain. */
  ghost predicate PageChecked(rel: seq<Page>, chain: seq<nat>, i: nat, level: nat)
    requires IsChain(rel, chain) && i < |chain|
  {
    var p := rel[chain[i]];
    !p.deleted && (!p.Ignore() ==> p.level == level && Checked(rel, p) && (i > 0 ==> p.prev == chain[i - 1]))
  }

  /** An accepted level: a chain to the right edge whose live pages are all checked. */
  ghost predicate LevelOk(rel: seq<Page>, chain: seq<nat>, level: nat) {
    chain != [] && IsChain(rel, chain) && rel[Last(chain)].next == 0 && !rel[Last(chain)].Ignore() &&
    forall i :: 0 <= i < |chain| ==> PageChecked(rel, chain, i, level)
  }

  /** The last child of a page that is not rightmost is not rightmost either. */
  ghost predicate LastChildGoesOn(rel: seq<Page>, p: Page) {
    !p.leaf && !p.Rightmost() && p.Data(|p.items|) ==> GoesOn(rel, p.Down(|p.items|))
  }

  /** The walk along the child level that goes with an accepted internal level. */
  ghost predicate ChildLevelOk(rel: seq<Page>, chain: seq<nat>, trail: seq<nat>, linked: seq<bool>)
    requires IsChain(rel, chain)
  {
    TrailOk(rel, trail, linked) && trail != [] && rel[Last(trail)].next == 0 &&
    Picked(trail, linked) == LevelDowns(rel, chain) &&
    forall i :: 0 <= i < |chain| && Live(rel, chain[i]) ==> LastChildGoesOn(rel, rel[chain[i]])
  }

  /** No live page of the level has a null downlink. */
  ghost predicate FullDowns(rel: seq<Page>, chain: seq<nat>) {
    forall i :: 0 <= i < |chain| && Live(rel, chain[i]) ==> Full(rel[chain[i]])
  }

  /** The first page of the level that the metapage names is marked as the root, or was just split. */
  ghost predicate RootMarked(rel: seq<Page>, chain: seq<nat>, isTrueRoot: bool) {
    chain != [] && isTrueRoot && Live(rel, chain[0]) ==> rel[chain[0]].root || rel[chain[0]].incomplete
  }

  lemma RoundFacts(rel: seq<Page>, v: Level, n: nat)
    requires RoundAccepts(rel, v, n)
    ensures var b := RightOf(rel, v.leftmost, n); Block(rel, b) && !rel[b].deleted && (rel[b].Rightmost() ==> !rel[b].Ignore())
    ensures var p := rel[RightOf(rel, v.leftmost, n)];
      !p.Ignore() ==> p.level == v.level && Checked(rel, p) && (n > 0 && LeftBefore(rel, v, n) != 0 ==> p.prev == LeftBefore(rel, v, n))
  {
    var p := rel[RightOf(rel, v.leftmost, n)];
    if !p.Ignore() { PageFacts(rel, p, LowkeyBefore(rel, v, n), WalkBefore(rel, v, n)); }
  }

  /** The blocks of the rounds so far are a chain of checked pages. */
  lemma RoundsChecked(rel: seq<Page>, v: Level, n: nat)
    requires RoundsBefore(rel, v, n)
    ensures IsChain(rel, ChainTo(rel, v.leftmost, n))
    ensures forall i :: 0 <= i < n ==> PageChecked(rel, ChainTo(rel, v.leftmost, n), i, v.level)
  {
    var chain := ChainTo(rel, v.leftmost, n);
    forall i | 0 <= i < n ensures Block(rel, chain[i]) {
      assert RoundAccepts(rel, v, i);
      RoundFacts(rel, v, i);
    }
    forall i | 0 <= i < n - 1 ensures rel[chain[i]].next == chain[i + 1] {
      assert RightOf(rel, v.leftmost, i + 1) == rel[chain[i]].next;
    }
    forall i | 0 <= i < n ensures PageChecked(rel, chain, i, v.level) {
      assert RoundAccepts(rel, v, i);
      RoundFacts(rel, v, i);
      assert i > 0 ==> Block(rel, chain[i - 1]);
    }
  }

  lemma LevelFacts(rel: seq<Page>, v: Level, n: nat)
    requires LevelEnds(rel, v, n)
    ensures LevelOk(rel, ChainTo(rel, v.leftmost, n + 1), v.level)
    ensures RootMarked(rel, ChainTo(rel, v.leftmost, n + 1), v.isTrueRoot)
  {
    NothingAfterEnd(rel, v, n);
    RoundsChecked(rel, v, n + 1);
    RoundFacts(rel, v, n);
    assert RoundAccepts(rel, v, 0);
  }

  lemma RoundTrail(rel: seq<Page>, v: Level, n: nat, t: seq<nat>, l: seq<bool>) returns (trail: seq<nat>, linked: seq<bool>)
    requires v.level > 0 && RoundAccepts(rel, v, n) && Live(rel, RightOf(rel, v.leftmost, n)) && Fits(rel, WalkBefore(rel, v, n), t, l)
    requires Full(rel[RightOf(rel, v.leftmost, n)])
    ensures var p := rel[RightOf(rel, v.leftmost, n)];
      FitsAfter(rel, p, trail, linked) && Picked(trail, linked) == Picked(t, l) + Downs(p)
  {
    var p := rel[RightOf(rel, v.leftmost, n)];
    trail, linked := WholePageTrail(rel, p, LowkeyBefore(rel, v, n), WalkBefore(rel, v, n), t, l);
  }

  ghost predicate TrailUpTo(rel: seq<Page>, v: Level, n: nat, trail: seq<nat>, linked: seq<bool>) {
    var latest := Latest(rel, v.leftmost, n);
    if latest.None? then trail == [] && linked == [] else FitsAfter(rel, rel[latest.value], trail, linked)
  }

  /** Before a round on a live page the child walk stands where the last live page left it. */
  lemma FitsBefore(rel: seq<Page>, v: Level, n: nat, trail: seq<nat>, linked: seq<bool>)
    ensures v.level > 0 && RoundsBefore(rel, v, n + 1) && TrailUpTo(rel, v, n, trail, linked) ==>
      Fits(rel, WalkBefore(rel, v, n), trail, linked)
  {
    if RoundsBefore(rel, v, n + 1) { NotRightmostBefore(rel, v, n); }
  }

  lemma TrailStep(rel: seq<Page>, v: Level, n: nat, t: seq<nat>, l: seq<bool>) returns (trail: seq<nat>, linked: seq<bool>)
    requires v.level > 0 && RoundsBefore(rel, v, n + 1) && TrailUpTo(rel, v, n, t, l) && |t| == |l|
    requires Live(rel, RightOf(rel, v.leftmost, n)) ==> Full(rel[RightOf(rel, v.leftmost, n)])
    ensures TrailUpTo(rel, v, n + 1, trail, linked) && |trail| == |linked|
    ensures Picked(trail, linked) == Picked(t, l) + if Live(rel, RightOf(rel, v.leftmost, n)) then Downs(rel[RightOf(rel, v.leftmost, n)]) else []
  {
    trail, linked := t, l;
    if Live(rel, RightOf(rel, v.leftmost, n)) {
      FitsBefore(rel, v, n, t, l);
      trail, linked := RoundTrail(rel, v, n, t, l);
    }
  }

  /** The trail along the children of the pages of the first n rounds. */
  lemma {:induction false} LevelTrail(rel: seq<Page>, v: Level, n: nat) returns (trail: seq<nat>, linked: seq<bool>)
    requires v.level > 0 && RoundsBefore(rel, v, n) && FullDowns(rel, ChainTo(rel, v.leftmost, n))
    requires IsChain(rel, ChainTo(rel, v.leftmost, n))
    ensures TrailUpTo(rel, v, n, trail, linked)
    ensures |trail| == |linked| && Picked(trail, linked) == LevelDowns(rel, ChainTo(rel, v.leftmost, n))
  {
    if n == 0 { return [], []; }
    var b := RightOf(rel, v.leftmost, n - 1);
    assert ChainTo(rel, v.leftmost, n)[n - 1] == b;
    ShorterChain(rel, v, n);
    trail, linked := LevelTrail(rel, v, n - 1);
    LevelDownsSnoc(rel, ChainTo(rel, v.leftmost, n - 1), b);
    trail, linked := TrailStep(rel, v, n - 1, trail, linked);
  }

  lemma ShorterChain(rel: seq<Page>, v: Level, n: nat)
    requires n > 0 && FullDowns(rel, ChainTo(rel, v.leftmost, n)) && IsChain(rel, ChainTo(rel, v.leftmost, n))
    ensures FullDowns(rel, ChainTo(rel, v.leftmost, n - 1)) && IsChain(rel, ChainTo(rel, v.leftmost, n - 1))
  {
    var c, d := ChainTo(rel, v.leftmost, n), ChainTo(rel, v.leftmost, n - 1);
    assert d == c[..n - 1];
  }

  /** The page before a round is not rightmost, and so the child walk stands where the last live page left it. */
  lemma {:induction false} NotRightmostBefore(rel: seq<Page>, v: Level, n: nat)
    requires RoundsBefore(rel, v, n + 1)
    ensures var latest := Latest(rel, v.leftmost, n);
      latest.Some? ==> !rel[latest.value].Rightmost() && rel[latest.value].level == v.level && Block(rel, latest.value)
  {
    if n > 0 {
      NotRightmostBefore(rel, v, n - 1);
      assert RoundAccepts(rel, v, n) && RoundAccepts(rel, v, n - 1);
    }
  }

  /** Between two neighbouring live pages of a level, the last live page is the left one. */
  lemma {:induction false} LatestIs(rel: seq<Page>, b: nat, i: nat, j: nat)
    requires i < j && Live(rel, RightOf(rel, b, i)) && forall k: nat :: i < k < j ==> !Live(rel, RightOf(rel, b, k))
    ensures Latest(rel, b, j) == Some(RightOf(rel, b, i))
  {
    if j > i + 1 {
      assert !Live(rel, RightOf(rel, b, j - 1));
      LatestIs(rel, b, i, j - 1);
    }
  }

  /** The first downlink of an accepted page is looked for right of where the walk stood. */
  lemma FirstSlotFacts(rel: seq<Page>, v: Level, n: nat)
    requires v.level > 0 && RoundAccepts(rel, v, n) && Live(rel, RightOf(rel, v.leftmost, n)) && Full(rel[RightOf(rel, v.leftmost, n)])
    ensures WalkBefore(rel, v, n).link != Some(0)
  {
    var p := rel[RightOf(rel, v.leftmost, n)];
    assert p.Data(p.FirstData()) && SlotAcceptsIn(rel, p, LowkeyBefore(rel, v, n), WalkBefore(rel, v, n), p.FirstData());
    SlotFacts(rel, p, LowkeyBefore(rel, v, n), p.FirstData(), WalkBefore(rel, v, n));
  }

  lemma WalkAfterLast(rel: seq<Page>, p: Page)
    requires p.Sane() && !p.Ignore() && Checked(rel, p) && !p.Rightmost() && !p.leaf && AfterPage(rel, p, START).link != Some(0)
    ensures LastChildGoesOn(rel, p)
  {
    var off := |p.items|;
    assert p.Data(off);
    if p.Down(off) != 0 { assert ChildKnown(rel, p, off); }
  }

  lemma NextLiveGoesOn(rel: seq<Page>, v: Level, i: nat, j: nat)
    requires v.level > 0 && RoundsBefore(rel, v, j + 1) && i < j
    requires Live(rel, RightOf(rel, v.leftmost, i)) && Live(rel, RightOf(rel, v.leftmost, j)) && Full(rel[RightOf(rel, v.leftmost, j)])
    requires forall k: nat :: i < k < j ==> !Live(rel, RightOf(rel, v.leftmost, k))
    ensures LastChildGoesOn(rel, rel[RightOf(rel, v.leftmost, i)])
  {
    LatestIs(rel, v.leftmost, i, j);
    NotRightmostBefore(rel, v, j);
    assert RoundAccepts(rel, v, i) && RoundAccepts(rel, v, j);
    RoundFacts(rel, v, i);
    FirstSlotFacts(rel, v, j);
    WalkAfterLast(rel, rel[RightOf(rel, v.leftmost, i)]);
  }

  lemma {:induction false} LastChildrenGoOn(rel: seq<Page>, v: Level, i: nat, j: nat)
    requires v.level > 0 && RoundsBefore(rel, v, j + 1) && i < j && FullDowns(rel, ChainTo(rel, v.leftmost, j + 1))
    requires Live(rel, RightOf(rel, v.leftmost, i)) && Live(rel, RightOf(rel, v.leftmost, j))
    ensures LastChildGoesOn(rel, rel[RightOf(rel, v.leftmost, i)])
    decreases j
  {
    if k: nat :| i < k < j && Live(rel, RightOf(rel, v.leftmost, k)) {
      assert ChainTo(rel, v.leftmost, k + 1) == ChainTo(rel, v.leftmost, j + 1)[..k + 1];
      LastChildrenGoOn(rel, v, i, k);
    } else {
      assert ChainTo(rel, v.leftmost, j + 1)[j] == RightOf(rel, v.leftmost, j);
      NextLiveGoesOn(rel, v, i, j);
    }
  }

  lemma {:induction false} PickedFirst(trail: seq<nat>, linked: seq<bool>)
    requires |trail| == |linked| && trail != [] && linked[0]
    ensures Picked(trail, linked) != [] && Picked(trail, linked)[0] == trail[0]
  {
    var n := |trail| - 1;
    if n > 0 { PickedFirst(trail[..n], linked[..n]); }
  }

  lemma {:induction false} DownsFirst(p: Page, hi: nat)
    requires p.FirstData() <= hi <= |p.items|
    ensures DownsTo(p, hi) != [] && DownsTo(p, hi)[0] == p.Down(p.FirstData())
  {
    if hi > p.FirstData() { DownsFirst(p, hi - 1); } else { assert DownsTo(p, hi - 1) == []; }
  }

  function Head(s: seq<nat>): Option<nat> {
    if s == [] then None else Some(s[0])
  }

  lemma HeadOf(s: seq<nat>, t: seq<nat>)
    ensures Head(s + t) == if s == [] then Head(t) else Head(s)
  {
    assert s == [] ==> s + t == t;
  }

  ghost predicate Internal(rel: seq<Page>, chain: seq<nat>) {
    IsChain(rel, chain) && forall i :: 0 <= i < |chain| ==> rel[chain[i]].Ignore() || !rel[chain[i]].leaf
  }

  /** The first downlink of the first live page of a chain. */
  ghost function FirstBelow(rel: seq<Page>, chain: seq<nat>): Option<nat> {
    if chain == [] then None
    else
      var n := |chain| - 1;
      var sofar := FirstBelow(rel, chain[..n]);
      if sofar.None? && Live(rel, chain[n]) then Some(FirstDown(rel[chain[n]])) else sofar
  }

  lemma {:induction false} StartIsFirst(rel: seq<Page>, b: nat, n: nat)
    ensures StartBelow(rel, b, n) == FirstBelow(rel, ChainTo(rel, b, n))
  {
    if n > 0 {
      StartIsFirst(rel, b, n - 1);
      assert ChainTo(rel, b, n)[..n - 1] == ChainTo(rel, b, n - 1);
    }
  }

  /** The next level starts at the first downlink. */
  lemma {:induction false} FirstIsHead(rel: seq<Page>, chain: seq<nat>)
    requires Internal(rel, chain)
    ensures FirstBelow(rel, chain) == Head(LevelDowns(rel, chain))
  {
    if chain != [] {
      var n := |chain| - 1;
      var p := rel[chain[n]];
      FirstIsHead(rel, chain[..n]);
      assert Block(rel, chain[n]);
      HeadOf(LevelDowns(rel, chain[..n]), if p.Ignore() then [] else Downs(p));
      if !p.Ignore() { DownsFirst(p, |p.items|); }
    }
  }

  lemma InternalLevel(rel: seq<Page>, chain: seq<nat>, level: nat)
    requires level > 0 && LevelOk(rel, chain, level)
    ensures Internal(rel, chain)
  {
    forall i | 0 <= i < |chain| ensures rel[chain[i]].Ignore() || !rel[chain[i]].leaf {
      assert PageChecked(rel, chain, i, level) && Block(rel, chain[i]);
    }
  }

  lemma AllLastChildrenGoOn(rel: seq<Page>, v: Level, n: nat, chain: seq<nat>)
    requires v.level > 0 && chain == ChainTo(rel, v.leftmost, n + 1) && FullDowns(rel, chain)
    ensures LevelEnds(rel, v, n) ==> forall i :: 0 <= i < |chain| && Live(rel, chain[i]) ==> LastChildGoesOn(rel, rel[chain[i]])
  {
    if LevelEnds(rel, v, n) {
      NothingAfterEnd(rel, v, n);
      RoundFacts(rel, v, n);
      forall i | 0 <= i < |chain| && Live(rel, chain[i]) ensures LastChildGoesOn(rel, rel[chain[i]]) {
        if i < n { LastChildrenGoOn(rel, v, i, n); }
      }
    }
  }

  /** The trail of the whole level ends at the right edge. */
  lemma WholeTrail(rel: seq<Page>, v: Level, n: nat) returns (trail: seq<nat>, linked: seq<bool>)
    requires v.level > 0 && LevelEnds(rel, v, n) && FullDowns(rel, ChainTo(rel, v.leftmost, n + 1))
    requires IsChain(rel, ChainTo(rel, v.leftmost, n + 1))
    ensures TrailOk(rel, trail, linked) && trail != [] && rel[Last(trail)].next == 0
    ensures Picked(trail, linked) == LevelDowns(rel, ChainTo(rel, v.leftmost, n + 1))
  {
    NothingAfterEnd(rel, v, n);
    RoundFacts(rel, v, n);
    assert Latest(rel, v.leftmost, n + 1) == Some(RightOf(rel, v.leftmost, n));
    trail, linked := LevelTrail(rel, v, n + 1);
  }

  /**
   On an accepted internal level without null downlinks, one walk from the left edge to the right
   edge of the level below reaches all downlinks in their order.
   */
  lemma ChildLevelFacts(rel: seq<Page>, v: Level, n: nat, chain: seq<nat>) returns (trail: seq<nat>, linked: seq<bool>)
    requires LevelEnds(rel, v, n) && v.level > 0 && chain == ChainTo(rel, v.leftmost, n + 1) && FullDowns(rel, chain)
    requires IsChain(rel, chain)
    ensures ChildLevelOk(rel, chain, trail, linked)
  {
    trail, linked := WholeTrail(rel, v, n);
    AllLastChildrenGoOn(rel, v, n, chain);
  }

  lemma TrailHead(rel: seq<Page>, chain: seq<nat>, trail: seq<nat>, linked: seq<bool>)
    requires Internal(rel, chain) && ChildLevelOk(rel, chain, trail, linked)
    ensures FirstBelow(rel, chain) == Some(trail[0])
  {
    PickedFirst(trail, linked);
    FirstIsHead(rel, chain);
  }

  /** The next level starts where that walk does. */
  lemma ChildLevelStart(rel: seq<Page>, b: nat, n: nat, chain: seq<nat>, level: nat, trail: seq<nat>, linked: seq<bool>)
    requires chain == ChainTo(rel, b, n) && level > 0 && LevelOk(rel, chain, level) && ChildLevelOk(rel, chain, trail, linked)
    ensures StartBelow(rel, b, n) == Some(trail[0])
  {
    InternalLevel(rel, chain, level);
    TrailHead(rel, chain, trail, linked);
    StartIsFirst(rel, b, n);
  }

  // -------------------------------------------------------------------- levels linked both ways

  /** No page of the level is half-dead or deleted, and none left of its start is half-dead. */
  ghost predicate AllLive(rel: seq<Page>, chain: seq<nat>) {
    (forall i :: 0 <= i < |chain| ==> Live(rel, chain[i])) &&
    (chain != [] && Block(rel, rel[chain[0]].prev) ==> !rel[rel[chain[0]].prev].halfDead)
  }

  /** Linked both ways from the left edge on. */
  ghost predicate TwoWay(rel: seq<Page>, chain: seq<nat>) {
    IsChain(rel, chain) && Distinct(chain) &&
    (chain != [] ==> rel[chain[0]].prev == 0) && forall i :: 0 < i < |chain| ==> rel[chain[i]].prev == chain[i - 1]
  }

  /** The sibling check makes it impossible to come back to a block. */
  lemma TwoWaySnoc(rel: seq<Page>, chain: seq<nat>, b: nat)
    requires TwoWay(rel, chain) && Block(rel, b)
    requires if chain == [] then rel[b].prev == 0 else b == rel[Last(chain)].next && rel[b].prev == Last(chain)
    ensures TwoWay(rel, chain + [b])
  {
    var c := chain + [b];
    forall i | 0 <= i < |chain| ensures c[i] != b {
      assert Block(rel, Last(chain));
      if i > 0 { assert rel[chain[i]].prev == chain[i - 1]; }
    }
  }

  lemma StartsAtEdge(rel: seq<Page>, v: Level)
    requires RoundAccepts(rel, v, 0) && AllLive(rel, [v.leftmost])
    ensures rel[v.leftmost].prev == 0
  {
    assert Live(rel, [v.leftmost][0]);
    LeftOfEdge(rel, v.leftmost);
  }

  /**
   As long as it meets no half-dead page, the level walk never comes to a block twice, however it
   ends: the left links it compares make every step back impossible.
   */
  lemma {:induction false} WalkNeverReturns(rel: seq<Page>, v: Level, n: nat)
    requires RoundsBefore(rel, v, n) && AllLive(rel, ChainTo(rel, v.leftmost, n))
    ensures TwoWay(rel, ChainTo(rel, v.leftmost, n))
  {
    if n > 0 {
      var chain := ChainTo(rel, v.leftmost, n - 1);
      var b := RightOf(rel, v.leftmost, n - 1);
      assert chain == ChainTo(rel, v.leftmost, n)[..n - 1] && ChainTo(rel, v.leftmost, n)[n - 1] == b;
      WalkNeverReturns(rel, v, n - 1);
      assert RoundAccepts(rel, v, n - 1);
      RoundFacts(rel, v, n - 1);
      if n == 1 {
        assert ChainTo(rel, v.leftmost, n) == [v.leftmost];
        StartsAtEdge(rel, v);
      } else {
        assert Block(rel, chain[n - 2]);
      }
      TwoWaySnoc(rel, chain, b);
    }
  }
}
