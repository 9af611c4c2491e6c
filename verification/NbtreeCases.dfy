/**
 Relations that show where the checks stop: a tree they accept and in which a search misses a
 stored item, relations they accept although no tree is there, and relations they never finish.
 */
module NbtreeCases {
  import opened Lexicographic
  import opened NbtreeKey
  import opened NbtreePage
  import opened NbtreeCheck
  import opened NbtreeLevel
  import opened NbtreeFacts
  import opened NbtreeTree
  import opened NbtreeAccept
  import opened NbtreeSearch
  import opened Optional

  function Plain(level: nat, root: bool, prev: nat, next: nat, items: seq<Item>): Page {
    Page(level, level == 0, root, false, false, false, false, prev, next, items)
  }

  // ------------------------------------------------------------------------ a missed item

  /**
   Block 1 is the root; 2 and 3 are its children; the leaves are 4 and 5.  Leaf keys are one
   attribute and a heap TID.  The leftmost leaf below block 3 inherits its lower bound from a pivot
   two levels up, and no check looks that far.
   */
  function Cousins(): seq<Page> {
    [ Plain(0, false, 0, 0, []),
      Plain(2, true, 0, 0, [Item([], 2), Item([10], 3)]),
      Plain(1, false, 0, 3, [Item([10], 0), Item([], 4)]),
      Plain(1, false, 2, 0, [Item([], 5)]),
      Plain(0, false, 0, 5, [Item([10], 0), Item([5, 1], 0)]),
      Plain(0, false, 4, 0, [Item([8, 1], 0)]) ]
  }

  const LEVELS: seq<seq<nat>> := [[1], [2, 3], [4, 5]]

  lemma RootLevel()
    ensures LevelOk(Cousins(), [1], 2)
  {
    var rel := Cousins();
    assert Checked(rel, rel[1]);
  }

  lemma MiddleLevel()
    ensures LevelOk(Cousins(), [2, 3], 1)
  {
    var rel := Cousins();
    assert Checked(rel, rel[2]);
    assert Checked(rel, rel[3]);
  }

  lemma LeafLevel()
    ensures LevelOk(Cousins(), [4, 5], 0)
  {
    var rel := Cousins();
    assert SkipsTo(rel, rel[4], 0, 5);
    assert BelowNext(rel, rel[4], [5, 1]);
    assert Checked(rel, rel[4]);
    assert Checked(rel, rel[5]);
  }

  lemma ChildPair(rel: seq<Page>, chain: seq<nat>, a: nat, b: nat)
    requires IsChain(rel, chain) && LevelDowns(rel, chain) == [a, b]
    requires Block(rel, a) && Block(rel, b) && rel[a].prev == 0 && rel[a].next == b && rel[b].next == 0
    requires forall i :: 0 <= i < |chain| && Live(rel, chain[i]) ==> LastChildGoesOn(rel, rel[chain[i]])
    ensures ChildLevelOf(rel, chain, [a, b])
  {
    BothPicked(a, b);
    PairTrail(rel, a, b);
    assert ChildLevelOk(rel, chain, [a, b], [true, true]);
  }

  lemma PairTrail(rel: seq<Page>, a: nat, b: nat)
    requires Block(rel, a) && Block(rel, b) && rel[a].prev == 0 && rel[a].next == b
    ensures TrailOk(rel, [a, b], [true, true])
  {
    FirstOnLevel(rel, a);
    assert IsChain(rel, [a, b]);
  }

  lemma BothPicked(a: nat, b: nat)
    ensures Picked([a, b], [true, true]) == [a, b]
  {
    PickedSnoc([], [], a, true);
    PickedSnoc([a], [true], b, true);
    assert [] + [a] == [a] && [] + [true] == [true] && [a] + [b] == [a, b] && [true] + [true] == [true, true];
  }

  lemma RootChildren()
    ensures ChildLevelOf(Cousins(), [1], [2, 3])
  {
    LevelDownsSnoc(Cousins(), [], 1);
    TwoDowns(Cousins()[1]);
    ChildPair(Cousins(), [1], 2, 3);
  }

  lemma MiddleChildren()
    ensures ChildLevelOf(Cousins(), [2, 3], [4, 5])
  {
    OneDownEach(Cousins(), 2, 3);
    ChildPair(Cousins(), [2, 3], 4, 5);
  }

  lemma OneDownEach(rel: seq<Page>, a: nat, b: nat)
    requires a < |rel| && b < |rel| && Live(rel, a) && Live(rel, b)
    requires |rel[a].items| == rel[a].FirstData() && |rel[b].items| == rel[b].FirstData()
    ensures LevelDowns(rel, [a, b]) == [rel[a].Down(rel[a].FirstData()), rel[b].Down(rel[b].FirstData())]
  {
    OneDown(rel[a]);
    OneDown(rel[b]);
    LevelDownsSnoc(rel, [], a);
    LevelDownsSnoc(rel, [a], b);
    assert [] + [a] == [a] && [a] + [b] == [a, b];
  }

  lemma OneDown(p: Page)
    requires |p.items| == p.FirstData()
    ensures Downs(p) == [p.Down(p.FirstData())]
  {
    assert DownsTo(p, p.FirstData() - 1) == [];
  }

  lemma TwoDowns(p: Page)
    requires |p.items| == p.FirstData() + 1
    ensures Downs(p) == [p.Down(p.FirstData()), p.Down(p.FirstData() + 1)]
  {
    assert DownsTo(p, p.FirstData() - 1) == [];
    assert DownsTo(p, p.FirstData()) == [p.Down(p.FirstData())];
  }

  lemma WholeTree()
    ensures TreeOk(Cousins(), 1, 2, LEVELS)
  {
    RootLevel();
    MiddleLevel();
    LeafLevel();
    RootChildren();
    MiddleChildren();
  }

  lemma LinkedBothWays()
    ensures TwoWay(Cousins(), [1]) && TwoWay(Cousins(), [2, 3]) && TwoWay(Cousins(), [4, 5])
  {}

  lemma Quietly()
    ensures Settled(Cousins(), LEVELS)
  {}

  /** A search for the item of block 5 turns left at the root and never comes back. */
  lemma SearchTurnsLeft()
    ensures SearchEnds(Cousins(), 1, [8, 1], 2, 4)
  {
    var rel, k := Cousins(), [8, 1];
    assert MovesTo(rel, 1, k, 0, 1) && MovesTo(rel, 2, k, 0, 2) && MovesTo(rel, 4, k, 0, 4);
    assert ChildFor(rel[1], k) == 2 && ChildFor(rel[2], k) == 4;
    assert Lands(rel, 4, k, 0, 4);
    assert SearchEnds(rel, 4, k, 0, 4);
    assert Lands(rel, 2, k, 1, 4);
    assert SearchEnds(rel, 2, k, 1, 4);
    assert Lands(rel, 1, k, 2, 4);
  }

  /**
   The checks accept this settled tree, and a search for the only item of block 5 ends at block 4,
   where it is not.
   */
  lemma CousinMissed()
    ensures SoundTree(Cousins(), 1, 2, LEVELS) && Settled(Cousins(), LEVELS) && IndexAccepts(Cousins(), Level(2, 1, true))
    ensures Cousins()[5].Real(1) && Cousins()[5].Key(1) == [8, 1] && forall off: nat :: Cousins()[4].Real(off) ==> Cousins()[4].Key(off) != [8, 1]
    ensures SearchEnds(Cousins(), 1, [8, 1], 2, 4) && !SearchEnds(Cousins(), 1, [8, 1], 2, 5)
  {
    WholeTree();
    LinkedBothWays();
    Quietly();
    SettledAccepted(Cousins(), 1, 2, LEVELS);
    SearchTurnsLeft();
    if SearchEnds(Cousins(), 1, [8, 1], 2, 5) { SearchEndsOnce(Cousins(), 1, [8, 1], 2, 4, 5); }
  }

  // ------------------------------------------------------------------------ null downlinks

  /** A root of level 1 whose only downlink is null. */
  function Lonely(): seq<Page> {
    [Plain(0, false, 0, 0, []), Plain(1, true, 0, 0, [Item([], 0)])]
  }

  /** A root whose first downlink is null, above a leaf with its items out of order. */
  function Unsorted(): seq<Page> {
    [ Plain(0, false, 0, 0, []),
      Plain(1, true, 0, 0, [Item([], 0), Item([5], 2)]),
      Plain(0, false, 0, 0, [Item([9, 1], 0), Item([8, 1], 0)]) ]
  }

  /** A null downlink ends the walk along the children at once. */
  lemma NullLeg(rel: seq<Page>, p: Page, lowkey: Option<Key>)
    requires p.Data(p.FirstData()) && p.Down(p.FirstData()) == 0
    ensures LegAccepts(rel, Leg(p, lowkey, Some(p.FirstData()), START))
  {
    assert Arrives(rel, Leg(p, lowkey, Some(p.FirstData()), START), 0);
  }

  lemma RootFull(rel: seq<Page>, root: nat, top: nat, levels: seq<seq<nat>>)
    requires TreeOk(rel, root, top, levels) && Live(rel, root)
    ensures Full(rel[root])
  {
    TreeFull(rel, root, top, levels);
    assert FullDowns(rel, levels[0]) && Live(rel, levels[0][0]);
  }

  /** The walk goes no further than a root page at the edges of its level that starts with a null downlink. */
  lemma NullRootAccepted(rel: seq<Page>)
    requires Block(rel, 1) && Live(rel, 1) && rel[1].level == 1 && rel[1].root && rel[1].prev == 0 && rel[1].Rightmost() && rel[1].Down(1) == 0
    requires PageAccepts(rel, rel[1], None, START)
    ensures IndexAccepts(rel, Level(1, 1, true))
    ensures forall levels :: !TreeOk(rel, 1, 1, levels)
  {
    var v := Level(1, 1, true);
    FirstOnLevel(rel, 1);
    assert LevelEnds(rel, v, 0);
    assert StartBelow(rel, 1, 0 + 1) == Some(0) by { assert StartBelow(rel, 1, 0) == None; }
    assert IndexAccepts(rel, NextLevel(rel, v, 0));
    forall levels ensures !TreeOk(rel, 1, 1, levels) {
      if TreeOk(rel, 1, 1, levels) { RootFull(rel, 1, 1, levels); }
    }
  }

  /** A lone root with a null downlink is accepted, and is no tree. */
  lemma LonelyAccepted()
    ensures IndexAccepts(Lonely(), Level(1, 1, true))
    ensures forall levels :: !TreeOk(Lonely(), 1, 1, levels)
  {
    var rel := Lonely();
    NullLeg(rel, rel[1], None);
    assert Arrives(rel, LastLeg(rel, rel[1], None, START), 0);
    NullRootAccepted(rel);
  }

  /** So is a root with a null first downlink above a leaf whose items are out of order. */
  lemma UnsortedAccepted()
    ensures IndexAccepts(Unsorted(), Level(1, 1, true))
    ensures forall levels :: !TreeOk(Unsorted(), 1, 1, levels)
    ensures Less(Unsorted()[2].Key(2), Unsorted()[2].Key(1))
  {
    var rel := Unsorted();
    NullLeg(rel, rel[1], None);
    assert ChildKnown(rel, rel[1], 2);
    DirectLeg(rel, rel[1], None, 2, START);
    assert SlotAcceptsIn(rel, rel[1], None, START, 1) && SlotAcceptsIn(rel, rel[1], None, START, 2);
    assert Arrives(rel, LastLeg(rel, rel[1], None, START), 0);
    NullRootAccepted(rel);
  }

  // ------------------------------------------------------------------------ checks without end

  /** A half-dead leaf. */
  function HalfDead(prev: nat, next: nat): Page {
    Page(0, true, false, true, false, false, false, prev, next, [Item([], 0)])
  }

  /** A leaf whose split was not finished. */
  function Splitting(prev: nat, next: nat): Page {
    Page(0, true, false, false, false, false, true, prev, next, [Item([7], 0)])
  }

  /** A root leaf, and two half-dead pages that point right to each other. */
  function Carousel(): seq<Page> {
    [Plain(0, false, 0, 0, []), Plain(0, true, 0, 2, [Item([7], 0)]), HalfDead(1, 3), HalfDead(2, 2)]
  }

  lemma {:induction false} CarouselTurns(n: nat)
    ensures RightOf(Carousel(), 1, n) == if n == 0 then 1 else if n % 2 == 1 then 2 else 3
  {
    if n > 0 { CarouselTurns(n - 1); }
  }

  /** The walk along the leaves goes round the two half-dead pages for ever. */
  lemma CarouselEndless()
    ensures IndexDiverges(Carousel(), Level(0, 1, true))
  {
    var rel, v := Carousel(), Level(0, 1, true);
    forall n: nat ensures RoundAccepts(rel, v, n) {
      CarouselTurns(n);
      if n == 0 { FirstOnLevel(rel, 1); } else { CarouselTurns(n - 1); }
    }
  }

  /** A root above leaves 2, 3, 4 and 5, all of them being split; the right link of 5 goes back to 4. */
  function SplitLoop(): seq<Page> {
    [Plain(0, false, 0, 0, []), Plain(1, true, 0, 0, [Item([], 2)]), Splitting(0, 3), Splitting(2, 4), Splitting(3, 5), Splitting(4, 4)]
  }

  lemma {:induction false} SplitLoopTurns(n: nat)
    ensures RightOf(SplitLoop(), 3, n) == if n == 0 then 3 else if n % 2 == 1 then 4 else 5
  {
    if n > 0 { SplitLoopTurns(n - 1); }
  }

  lemma SplitLegEndless()
    ensures LegDiverges(SplitLoop(), LastLeg(SplitLoop(), SplitLoop()[1], None, START))
  {
    var rel := SplitLoop();
    var leg := LastLeg(rel, rel[1], None, START);
    forall n: nat ensures StepsOver(rel, leg, n) {
      SplitLoopTurns(n);
      if n > 0 { SplitLoopTurns(n - 1); }
    }
  }

  /** The walk to the right edge of the leaves never gets there, although no page is half-dead. */
  lemma SplitLoopEndless()
    ensures IndexDiverges(SplitLoop(), Level(1, 1, true))
    ensures forall b: nat :: Block(SplitLoop(), b) ==> !SplitLoop()[b].Ignore()
  {
    var rel, v := SplitLoop(), Level(1, 1, true);
    FirstOnLevel(rel, 1);
    SplitRootEndless();
    assert RoundsBefore(rel, v, 0) && RoundDiverges(rel, v, 0);
  }

  lemma SplitRootEndless()
    ensures PageDiverges(SplitLoop(), SplitLoop()[1], None, START)
  {
    var rel := SplitLoop();
    FirstOnLevel(rel, 2);
    assert Arrives(rel, Leg(rel[1], None, Some(1), START), 0);
    assert SlotsBefore(rel, rel[1], None, START, 2);
    SplitLegEndless();
  }
}
