/**
 What it takes to be accepted.  An accepted relation is a tree with the established facts exactly
 when no page on the levels walked has a null downlink.  Where no split or deletion is under way,
 such trees are all accepted.
 */
module NbtreeAccept {
  import opened NbtreePage
  import opened NbtreeCheck
  import opened NbtreeKey
  import opened NbtreeLevel
  import opened NbtreeFacts
  import opened NbtreeTree
  import opened Optional

  /** A tree that satisfies all that is checked, its levels linked both ways and its root marked. */
  ghost predicate SoundTree(rel: seq<Page>, root: nat, top: nat, levels: seq<seq<nat>>) {
    TreeOk(rel, root, top, levels) && RootMarked(rel, levels[0], true) && forall h :: 0 <= h <= top ==> TwoWay(rel, levels[h])
  }

  // ------------------------------------------------------------------ where the children are

  lemma {:induction false} DownsAt(p: Page, hi: nat, off: nat)
    requires p.FirstData() <= off <= hi <= |p.items|
    ensures |DownsTo(p, hi)| == hi - p.FirstData() + 1 && DownsTo(p, hi)[off - p.FirstData()] == p.Down(off)
  {
    if hi == p.FirstData() {
      assert DownsTo(p, hi - 1) == [];
    } else {
      DownsAt(p, hi - 1, if off < hi then off else hi - 1);
    }
  }

  lemma {:induction false} LevelDownsPrefix(rel: seq<Page>, chain: seq<nat>, i: nat)
    requires IsChain(rel, chain) && i <= |chain|
    ensures LevelDowns(rel, chain[..i]) <= LevelDowns(rel, chain)
    decreases |chain| - i
  {
    if i == |chain| {
      assert chain[..i] == chain;
    } else {
      LevelDownsPrefix(rel, chain, i + 1);
      LevelDownsSnoc(rel, chain[..i], chain[i]);
      assert chain[..i + 1] == chain[..i] + [chain[i]];
    }
  }

  /** The position of the child at offset off of page i among all children of the level. */
  ghost function Position(rel: seq<Page>, chain: seq<nat>, i: nat, off: nat): int
    requires IsChain(rel, chain) && i < |chain|
  {
    |LevelDowns(rel, chain[..i])| + off - rel[chain[i]].FirstData()
  }

  lemma ChildPosition(rel: seq<Page>, chain: seq<nat>, i: nat, off: nat)
    requires IsChain(rel, chain) && i < |chain| && Live(rel, chain[i]) && rel[chain[i]].Data(off)
    ensures 0 <= Position(rel, chain, i, off) < |LevelDowns(rel, chain)|
    ensures LevelDowns(rel, chain)[Position(rel, chain, i, off)] == rel[chain[i]].Down(off)
    ensures |LevelDowns(rel, chain[..i + 1])| == Position(rel, chain, i, |rel[chain[i]].items|) + 1
  {
    var p := rel[chain[i]];
    DownsAt(p, |p.items|, off);
    LevelDownsSnoc(rel, chain[..i], chain[i]);
    assert chain[..i + 1] == chain[..i] + [chain[i]];
    LevelDownsPrefix(rel, chain, i + 1);
  }

  /** The children of a level without ignorable pages: the list of all its downlinks, linked both ways. */
  ghost predicate Kids(rel: seq<Page>, chain: seq<nat>, kids: seq<nat>) {
    IsChain(rel, chain) && (forall i :: 0 <= i < |chain| ==> Live(rel, chain[i])) &&
    kids == LevelDowns(rel, chain) && kids != [] && TwoWay(rel, kids) && rel[Last(kids)].next == 0
  }

  lemma KidLinks(rel: seq<Page>, chain: seq<nat>, kids: seq<nat>, i: nat, off: nat)
    requires Kids(rel, chain, kids) && i < |chain| && rel[chain[i]].Data(off)
    ensures var k, c := Position(rel, chain, i, off), rel[chain[i]].Down(off);
            0 <= k < |kids| && Block(rel, c) && rel[c].prev != c && (k == 0 ==> rel[c].prev == 0) &&
            rel[c].next == if k + 1 < |kids| then kids[k + 1] else 0
  {
    ChildPosition(rel, chain, i, off);
    var k := Position(rel, chain, i, off);
    assert Block(rel, kids[k]);
    if k > 0 { assert rel[kids[k]].prev == kids[k - 1]; }
  }

  lemma KidsOfPage(rel: seq<Page>, chain: seq<nat>, kids: seq<nat>, i: nat, off: nat)
    requires Kids(rel, chain, kids) && i < |chain| && rel[chain[i]].Data(off) && off < |rel[chain[i]].items|
    ensures rel[chain[i]].Down(off) < |rel| && rel[rel[chain[i]].Down(off)].next == rel[chain[i]].Down(off + 1)
  {
    KidLinks(rel, chain, kids, i, off);
    ChildPosition(rel, chain, i, off + 1);
  }

  lemma KidsOfNextPage(rel: seq<Page>, chain: seq<nat>, kids: seq<nat>, i: nat)
    requires Kids(rel, chain, kids) && i + 1 < |chain|
    requires rel[chain[i]].Data(|rel[chain[i]].items|) && rel[chain[i + 1]].Data(rel[chain[i + 1]].FirstData())
    ensures var p, q := rel[chain[i]], rel[chain[i + 1]];
            0 < p.Down(|p.items|) < |rel| && rel[p.Down(|p.items|)].next == q.Down(q.FirstData())
  {
    KidLinks(rel, chain, kids, i, |rel[chain[i]].items|);
    ChildPosition(rel, chain, i, |rel[chain[i]].items|);
    ChildPosition(rel, chain, i + 1, rel[chain[i + 1]].FirstData());
  }

  lemma LastKid(rel: seq<Page>, chain: seq<nat>, kids: seq<nat>)
    requires Kids(rel, chain, kids) && chain != [] && rel[Last(chain)].Data(|rel[Last(chain)].items|)
    ensures var p := rel[Last(chain)]; 0 < p.Down(|p.items|) < |rel| && rel[p.Down(|p.items|)].next == 0
  {
    var i := |chain| - 1;
    KidLinks(rel, chain, kids, i, |rel[chain[i]].items|);
    ChildPosition(rel, chain, i, |rel[chain[i]].items|);
    assert chain[..i + 1] == chain;
  }

  lemma FirstKid(rel: seq<Page>, chain: seq<nat>, kids: seq<nat>)
    requires Kids(rel, chain, kids) && chain != [] && rel[chain[0]].Data(rel[chain[0]].FirstData())
    ensures var p := rel[chain[0]]; 0 < p.Down(p.FirstData()) < |rel| && rel[p.Down(p.FirstData())].prev == 0
  {
    KidLinks(rel, chain, kids, 0, rel[chain[0]].FirstData());
    assert chain[..0] == [];
  }

  // -------------------------------------------------------------------- pages without a surprise

  /** The next block of the child level is b: nothing visited yet and b is at the edge, or b is right of the last block. */
  ghost predicate Direct(rel: seq<Page>, w: Walk, b: nat) {
    0 < b < |rel| && rel[b].prev != b && if w.link.None? then rel[b].prev == 0 else w.link == Some(b)
  }

  lemma DirectLeg(rel: seq<Page>, p: Page, lowkey: Option<Key>, off: nat, w: Walk)
    requires p.Data(off) && ChildKnown(rel, p, off) && Direct(rel, w, p.Down(off))
    ensures LegAccepts(rel, Leg(p, lowkey, Some(off), w))
  {
    var leg := Leg(p, lowkey, Some(off), w);
    if w.link.None? { FirstOnLevel(rel, p.Down(off)); }
    assert Arrives(rel, leg, 0);
  }

  /** The children of p follow each other from where the walk stands, the last one at the right edge if p is. */
  ghost predicate ChildrenFollow(rel: seq<Page>, p: Page, w: Walk) {
    (forall off: nat :: p.Data(off) ==> Direct(rel, WalkAt(rel, p, off, w), p.Down(off))) &&
    (p.Rightmost() && p.Data(|p.items|) ==> p.Down(|p.items|) < |rel| && rel[p.Down(|p.items|)].next == 0)
  }

  lemma InternalAccepted(rel: seq<Page>, p: Page, lowkey: Option<Key>, w: Walk)
    requires !p.leaf && p.Data(p.FirstData()) && Checked(rel, p) && ChildrenFollow(rel, p, w)
    ensures PageAccepts(rel, p, lowkey, w)
  {
    forall off: nat | p.Data(off) ensures SlotAcceptsIn(rel, p, lowkey, w, off) {
      assert Direct(rel, WalkAt(rel, p, off, w), p.Down(off)) && ChildKnown(rel, p, off);
      DirectLeg(rel, p, lowkey, off, WalkAt(rel, p, off, w));
    }
    if p.Rightmost() {
      assert p.Data(|p.items|) && Direct(rel, WalkAt(rel, p, |p.items|, w), p.Down(|p.items|));
      assert Arrives(rel, LastLeg(rel, p, lowkey, w), 0);
    }
  }

  lemma LeafAccepted(rel: seq<Page>, p: Page, lowkey: Option<Key>, w: Walk)
    requires p.leaf && Checked(rel, p)
    ensures PageAccepts(rel, p, lowkey, w)
  {
    forall off: nat | p.Data(off) ensures SlotAcceptsIn(rel, p, lowkey, w, off) { assert p.Real(off); }
  }

  // -------------------------------------------------------------------- levels without a surprise

  lemma {:induction false} ChainIsRight(rel: seq<Page>, chain: seq<nat>, n: nat)
    requires IsChain(rel, chain) && n < |chain|
    ensures RightOf(rel, chain[0], n) == chain[n]
  {
    if n > 0 {
      ChainIsRight(rel, chain, n - 1);
      assert Block(rel, chain[n - 1]) && rel[chain[n - 1]].next == chain[n - 1 + 1];
    }
  }

  lemma LatestLive(rel: seq<Page>, chain: seq<nat>, n: nat)
    requires IsChain(rel, chain) && 0 < n < |chain| && Live(rel, chain[n - 1])
    ensures Latest(rel, chain[0], n) == Some(chain[n - 1])
  {
    ChainIsRight(rel, chain, n - 1);
  }

  /** Where the child walk stands before page i of a level without ignorable pages. */
  ghost function WalkTo(rel: seq<Page>, chain: seq<nat>, level: nat, i: nat): Walk
    requires i < |chain| && forall k :: 0 <= k < |chain| ==> chain[k] < |rel|
  {
    if i == 0 || level == 0 then START else AfterPage(rel, rel[chain[i - 1]], START)
  }

  lemma WalkIs(rel: seq<Page>, chain: seq<nat>, v: Level, i: nat)
    requires IsChain(rel, chain) && i < |chain| && v.leftmost == chain[0] && forall k :: 0 <= k < |chain| ==> Live(rel, chain[k])
    ensures WalkBefore(rel, v, i) == WalkTo(rel, chain, v.level, i)
    ensures Latest(rel, v.leftmost, i).None? <==> i == 0
    ensures LeftBefore(rel, v, i) == if i == 0 then 0 else chain[i - 1]
  {
    if i > 0 {
      ChainIsRight(rel, chain, i - 1);
      LatestLive(rel, chain, i);
    }
  }

  /** A page of a level that is linked both ways is in its place. */
  lemma PageInPlace(rel: seq<Page>, chain: seq<nat>, v: Level, i: nat)
    requires LevelOk(rel, chain, v.level) && TwoWay(rel, chain) && i < |chain| && Live(rel, chain[i]) && RootMarked(rel, chain, v.isTrueRoot)
    ensures InPlace(rel, v, chain[i], if i == 0 then 0 else chain[i - 1], i == 0)
    ensures chain[i] != (if i == 0 then 0 else chain[i - 1]) && chain[i] != rel[chain[i]].prev
  {
    assert PageChecked(rel, chain, i, v.level) && Block(rel, chain[i]);
    if i == 0 { FirstOnLevel(rel, chain[0]); } else { assert rel[chain[i]].prev == chain[i - 1] && chain[i - 1] != chain[i]; }
  }

  lemma RoundPasses(rel: seq<Page>, chain: seq<nat>, v: Level, i: nat)
    requires LevelOk(rel, chain, v.level) && TwoWay(rel, chain) && RootMarked(rel, chain, v.isTrueRoot)
    requires v.leftmost == chain[0] && i < |chain| && forall k :: 0 <= k < |chain| ==> Live(rel, chain[k])
    requires PageAccepts(rel, rel[chain[i]], LowkeyBefore(rel, v, i), WalkTo(rel, chain, v.level, i))
    ensures RoundAccepts(rel, v, i)
  {
    ChainIsRight(rel, chain, i);
    WalkIs(rel, chain, v, i);
    PageInPlace(rel, chain, v, i);
    assert Block(rel, chain[i]);
  }

  lemma LevelPasses(rel: seq<Page>, chain: seq<nat>, v: Level)
    requires LevelOk(rel, chain, v.level) && chain[0] == v.leftmost
    requires forall i :: 0 <= i < |chain| ==> RoundAccepts(rel, v, i)
    ensures LevelEnds(rel, v, |chain| - 1) && ChainTo(rel, v.leftmost, |chain|) == chain
  {
    ChainIsRight(rel, chain, |chain| - 1);
    forall i | 0 <= i < |chain| ensures ChainTo(rel, v.leftmost, |chain|)[i] == chain[i] { ChainIsRight(rel, chain, i); }
  }

  lemma LeafLevelPasses(rel: seq<Page>, chain: seq<nat>, v: Level)
    requires v.level == 0 && LevelOk(rel, chain, 0) && TwoWay(rel, chain) && RootMarked(rel, chain, v.isTrueRoot)
    requires v.leftmost == chain[0] && forall k :: 0 <= k < |chain| ==> Live(rel, chain[k])
    ensures LevelEnds(rel, v, |chain| - 1)
  {
    forall i | 0 <= i < |chain| ensures RoundAccepts(rel, v, i) {
      assert PageChecked(rel, chain, i, 0) && Block(rel, chain[i]) && Live(rel, chain[i]);
      LeafAccepted(rel, rel[chain[i]], LowkeyBefore(rel, v, i), START);
      RoundPasses(rel, chain, v, i);
    }
    LevelPasses(rel, chain, v);
  }

  lemma FirstSlotDirect(rel: seq<Page>, chain: seq<nat>, kids: seq<nat>, level: nat, i: nat)
    requires Kids(rel, chain, kids) && LevelOk(rel, chain, level) && level > 0 && i < |chain|
    ensures var p := rel[chain[i]]; p.Data(p.FirstData()) && Direct(rel, WalkTo(rel, chain, level, i), p.Down(p.FirstData()))
  {
    var p := rel[chain[i]];
    assert Live(rel, chain[i]) && PageChecked(rel, chain, i, level) && Block(rel, chain[i]);
    KidLinks(rel, chain, kids, i, p.FirstData());
    if i > 0 {
      assert Live(rel, chain[i - 1]) && PageChecked(rel, chain, i - 1, level) && Block(rel, chain[i - 1]);
      assert rel[chain[i - 1]].next == chain[i - 1 + 1];
      KidsOfNextPage(rel, chain, kids, i - 1);
    } else {
      FirstKid(rel, chain, kids);
    }
  }

  lemma ChildrenInOrder(rel: seq<Page>, chain: seq<nat>, kids: seq<nat>, level: nat, i: nat)
    requires Kids(rel, chain, kids) && LevelOk(rel, chain, level) && level > 0 && i < |chain|
    ensures ChildrenFollow(rel, rel[chain[i]], WalkTo(rel, chain, level, i))
  {
    var p, w := rel[chain[i]], WalkTo(rel, chain, level, i);
    FirstSlotDirect(rel, chain, kids, level, i);
    forall off: nat | p.Data(off) ensures Direct(rel, WalkAt(rel, p, off, w), p.Down(off)) {
      if off > p.FirstData() {
        KidLinks(rel, chain, kids, i, off);
        KidsOfPage(rel, chain, kids, i, off - 1);
        KidLinks(rel, chain, kids, i, off - 1);
        assert PageChecked(rel, chain, i, level) && Block(rel, chain[i]) && Live(rel, chain[i]);
      }
    }
    assert i + 1 < |chain| ==> p.next == chain[i + 1] && Block(rel, chain[i + 1]);
    if p.Rightmost() && p.Data(|p.items|) { LastKid(rel, chain, kids); }
  }

  lemma InternalLevelPasses(rel: seq<Page>, chain: seq<nat>, kids: seq<nat>, v: Level)
    requires v.level > 0 && LevelOk(rel, chain, v.level) && TwoWay(rel, chain) && RootMarked(rel, chain, v.isTrueRoot)
    requires v.leftmost == chain[0] && Kids(rel, chain, kids)
    ensures LevelEnds(rel, v, |chain| - 1) && ChainTo(rel, v.leftmost, |chain|) == chain
  {
    forall i | 0 <= i < |chain| ensures RoundAccepts(rel, v, i) {
      assert PageChecked(rel, chain, i, v.level) && Block(rel, chain[i]) && Live(rel, chain[i]);
      ChildrenInOrder(rel, chain, kids, v.level, i);
      InternalAccepted(rel, rel[chain[i]], LowkeyBefore(rel, v, i), WalkTo(rel, chain, v.level, i));
      RoundPasses(rel, chain, v, i);
    }
    LevelPasses(rel, chain, v);
  }

  // -------------------------------------------------------------------- sound trees are accepted

  lemma StartOfNext(rel: seq<Page>, chain: seq<nat>, kids: seq<nat>, level: nat)
    requires level > 0 && LevelOk(rel, chain, level) && Kids(rel, chain, kids) && ChainTo(rel, chain[0], |chain|) == chain
    ensures StartBelow(rel, chain[0], |chain|) == Some(kids[0])
  {
    InternalLevel(rel, chain, level);
    FirstIsHead(rel, chain);
    StartIsFirst(rel, chain[0], |chain|);
  }

  /** An internal level of a sound and settled tree is accepted, and leads to the next. */
  lemma TreeLevelPasses(rel: seq<Page>, root: nat, top: nat, levels: seq<seq<nat>>, h: nat, v: Level)
    requires SoundTree(rel, root, top, levels) && Settled(rel, levels) && h < top
    requires v == Level(top - h, levels[h][0], h == 0)
    ensures LevelEnds(rel, v, |levels[h]| - 1) && NextLevel(rel, v, |levels[h]| - 1) == Level(top - (h + 1), levels[h + 1][0], false)
  {
    var chain := levels[h];
    ChildLevelIsDownlinks(rel, root, top, levels, h);
    assert LevelOk(rel, chain, v.level) && TwoWay(rel, chain);
    assert LevelOk(rel, levels[h + 1], top - (h + 1)) && TwoWay(rel, levels[h + 1]);
    forall k | 0 <= k < |chain| ensures Live(rel, chain[k]) { assert SettledAt(rel, levels[h][k], h == 0); }
    InternalLevelPasses(rel, chain, levels[h + 1], v);
    StartOfNext(rel, chain, levels[h + 1], v.level);
  }

  lemma TreeLeavesPass(rel: seq<Page>, root: nat, top: nat, levels: seq<seq<nat>>, v: Level)
    requires SoundTree(rel, root, top, levels) && Settled(rel, levels) && v == Level(0, levels[top][0], top == 0)
    ensures LevelEnds(rel, v, |levels[top]| - 1)
  {
    assert LevelOk(rel, levels[top], top - top) && TwoWay(rel, levels[top]);
    forall k | 0 <= k < |levels[top]| ensures Live(rel, levels[top][k]) { assert SettledAt(rel, levels[top][k], top == 0); }
    LeafLevelPasses(rel, levels[top], v);
  }

  lemma {:induction false} SettledAcceptedFrom(rel: seq<Page>, root: nat, top: nat, levels: seq<seq<nat>>, h: nat, v: Level)
    requires SoundTree(rel, root, top, levels) && Settled(rel, levels) && h <= top && v == Level(top - h, levels[h][0], h == 0)
    ensures IndexAccepts(rel, v)
    decreases top - h
  {
    if h == top {
      TreeLeavesPass(rel, root, top, levels, v);
    } else {
      TreeLevelPasses(rel, root, top, levels, h, v);
      SettledAcceptedFrom(rel, root, top, levels, h + 1, Level(top - (h + 1), levels[h + 1][0], false));
    }
  }

  /** A sound tree on whose levels no split or deletion is under way is accepted. */
  lemma SettledAccepted(rel: seq<Page>, root: nat, top: nat, levels: seq<seq<nat>>)
    requires SoundTree(rel, root, top, levels) && Settled(rel, levels)
    ensures IndexAccepts(rel, Level(top, root, true))
  {
    SettledAcceptedFrom(rel, root, top, levels, 0, Level(top, root, true));
  }

  // -------------------------------------------------------------------- what is accepted

  /** What is known of the level that v starts once it is accepted. */
  ghost predicate LevelWalked(rel: seq<Page>, v: Level, chain: seq<nat>) {
    LevelOk(rel, chain, v.level) && chain[0] == v.leftmost && RootMarked(rel, chain, v.isTrueRoot) &&
    (AllLive(rel, chain) ==> TwoWay(rel, chain)) && FirstBelow(rel, chain).Some?
  }

  /**
   The levels that an accepted walk has gone over, from the one that v starts.  Each next level
   starts at the first downlink of the first live page; a null downlink there ends the walk.
   */
  ghost predicate Walked(rel: seq<Page>, v: Level, levels: seq<seq<nat>>)
    decreases |levels|
  {
    levels != [] && LevelWalked(rel, v, levels[0]) &&
    var below := FirstBelow(rel, levels[0]).value;
    if below == 0 then |levels| == 1
    else
      v.level > 0 && Walked(rel, Level(v.level - 1, below, false), levels[1..]) &&
      (FullDowns(rel, levels[0]) ==> ChildLevelOf(rel, levels[0], levels[1]))
  }

  lemma AcceptedLevel(rel: seq<Page>, v: Level, n: nat) returns (chain: seq<nat>)
    requires LevelEnds(rel, v, n)
    ensures chain == ChainTo(rel, v.leftmost, n + 1) && LevelWalked(rel, v, chain)
    ensures FirstBelow(rel, chain) == StartBelow(rel, v.leftmost, n + 1)
  {
    chain := ChainTo(rel, v.leftmost, n + 1);
    BothWays(rel, v, n, chain);
    LevelFacts(rel, v, n);
    FirstBelowSome(rel, chain);
    StartIsFirst(rel, v.leftmost, n + 1);
  }

  lemma FirstBelowSome(rel: seq<Page>, chain: seq<nat>)
    requires chain != [] && Live(rel, Last(chain))
    ensures FirstBelow(rel, chain).Some?
  {}

  lemma BothWays(rel: seq<Page>, v: Level, n: nat, chain: seq<nat>)
    requires chain == ChainTo(rel, v.leftmost, n + 1)
    ensures LevelEnds(rel, v, n) && AllLive(rel, chain) ==> TwoWay(rel, chain)
  {
    if LevelEnds(rel, v, n) && AllLive(rel, chain) {
      NothingAfterEnd(rel, v, n);
      WalkNeverReturns(rel, v, n + 1);
    }
  }

  /** The chain checked as the next level is the trail that was followed from above. */
  lemma SameChildLevel(rel: seq<Page>, chain: seq<nat>, trail: seq<nat>, linked: seq<bool>, next: seq<nat>)
    requires IsChain(rel, chain) && ChildLevelOk(rel, chain, trail, linked)
    requires next != [] && IsChain(rel, next) && rel[Last(next)].next == 0 && trail[0] == next[0]
    ensures ChildLevelOf(rel, chain, next)
  {
    ChainsAgree(rel, trail, next);
  }

  lemma ChildLevelWalked(rel: seq<Page>, v: Level, n: nat, chain: seq<nat>, next: seq<nat>)
    requires LevelEnds(rel, v, n) && v.level > 0 && chain == ChainTo(rel, v.leftmost, n + 1) && LevelOk(rel, chain, v.level)
    requires StartBelow(rel, v.leftmost, n + 1).Some?
    ensures
      && FullDowns(rel, chain) && LevelWalked(rel, Level(v.level - 1, StartBelow(rel, v.leftmost, n + 1).value, false), next)
      ==> ChildLevelOf(rel, chain, next)
  {
    if FullDowns(rel, chain) && LevelWalked(rel, Level(v.level - 1, StartBelow(rel, v.leftmost, n + 1).value, false), next) {
      var trail, linked := ChildLevelFacts(rel, v, n, chain);
      ChildLevelStart(rel, v.leftmost, n + 1, chain, v.level, trail, linked);
      SameChildLevel(rel, chain, trail, linked, next);
    }
  }

  lemma WalkedCons(rel: seq<Page>, v: Level, chain: seq<nat>, below: nat, rest: seq<seq<nat>>)
    requires LevelWalked(rel, v, chain) && FirstBelow(rel, chain) == Some(below) && below != 0 && v.level > 0
    requires Walked(rel, Level(v.level - 1, below, false), rest) && (FullDowns(rel, chain) ==> ChildLevelOf(rel, chain, rest[0]))
    ensures Walked(rel, v, [chain] + rest)
  {
    assert ([chain] + rest)[1..] == rest;
  }

  /** Below the leaves there is no next level. */
  lemma NextIsBelow(rel: seq<Page>, v: Level, n: nat, below: nat)
    ensures LevelEnds(rel, v, n) && StartBelow(rel, v.leftmost, n + 1) == Some(below) && below != 0 ==>
      v.level > 0 && NextLevel(rel, v, n) == Level(v.level - 1, below, false)
  {
    if LevelEnds(rel, v, n) && v.level == 0 {
      NothingAfterEnd(rel, v, n);
      LeavesEnd(rel, v, n + 1);
    }
  }

  lemma FirstAccepted(rel: seq<Page>, v: Level) returns (n: nat)
    requires IndexAccepts(rel, v) && v.leftmost != 0
    ensures LevelEnds(rel, v, n) && (v.level > 0 ==> IndexAccepts(rel, NextLevel(rel, v, n)))
  {
    n :| LevelEnds(rel, v, n) && (v.level > 0 ==> IndexAccepts(rel, NextLevel(rel, v, n)));
  }

  lemma {:induction false} AcceptedLevels(rel: seq<Page>, v: Level) returns (levels: seq<seq<nat>>)
    requires IndexAccepts(rel, v) && v.leftmost != 0
    ensures Walked(rel, v, levels)
    decreases v.level
  {
    var n := FirstAccepted(rel, v);
    var chain := AcceptedLevel(rel, v, n);
    var below := FirstBelow(rel, chain).value;
    if below == 0 { return [chain]; }
    NextIsBelow(rel, v, n, below);
    var rest := AcceptedLevels(rel, Level(v.level - 1, below, false));
    ChildLevelWalked(rel, v, n, chain, rest[0]);
    WalkedCons(rel, v, chain, below, rest);
    levels := [chain] + rest;
  }

  // ------------------------------------------------------------ null downlinks, and nothing else

  /** A level whose downlinks were all reached has no null downlink. */
  lemma ReachedDownsFull(rel: seq<Page>, chain: seq<nat>, trail: seq<nat>)
    requires ChildLevelOf(rel, chain, trail)
    ensures FullDowns(rel, chain)
  {
    var linked :| ChildLevelOk(rel, chain, trail, linked);
    forall i | 0 <= i < |chain| && Live(rel, chain[i]) ensures Full(rel[chain[i]]) {
      var p := rel[chain[i]];
      if !p.leaf && p.Data(p.FirstData()) {
        DownsMember(p, |p.items|, p.Down(p.FirstData()));
        LevelDownsHas(rel, chain, i, p.Down(p.FirstData()));
        var j :| 0 <= j < |Picked(trail, linked)| && Picked(trail, linked)[j] == p.Down(p.FirstData());
        var m := PickedFrom(trail, linked, j);
        assert Block(rel, trail[m]);
      }
    }
  }

  /** If the next level would start at the null block, the first live page has a null downlink. */
  lemma {:induction false} NullStart(rel: seq<Page>, chain: seq<nat>)
    requires Internal(rel, chain) && FirstBelow(rel, chain) == Some(0)
    ensures !FullDowns(rel, chain)
  {
    var n := |chain| - 1;
    assert Block(rel, chain[n]);
    if FirstBelow(rel, chain[..n]).Some? {
      NullStart(rel, chain[..n]);
      var i :| 0 <= i < n && Live(rel, chain[..n][i]) && !Full(rel[chain[..n][i]]);
      assert chain[i] == chain[..n][i];
    } else {
      assert Live(rel, chain[n]) && !Full(rel[chain[n]]);
    }
  }

  lemma LeavesFull(rel: seq<Page>, chain: seq<nat>)
    requires LevelOk(rel, chain, 0)
    ensures FullDowns(rel, chain)
  {
    forall i | 0 <= i < |chain| && Live(rel, chain[i]) ensures Full(rel[chain[i]]) {
      assert PageChecked(rel, chain, i, 0) && Block(rel, chain[i]);
    }
  }

  /** A tree is its top level and the tree below it. */
  lemma TreeCons(rel: seq<Page>, root: nat, top: nat, levels: seq<seq<nat>>)
    requires top > 0 && |levels| > 1 && levels[0] != [] && levels[0][0] == root && LevelOk(rel, levels[0], top) && levels[1] != []
    ensures TreeOk(rel, root, top, levels) <==> ChildLevelOf(rel, levels[0], levels[1]) && TreeOk(rel, levels[1][0], top - 1, levels[1..])
  {
    var rest := levels[1..];
    if TreeOk(rel, root, top, levels) {
      forall h | 0 <= h <= top - 1 ensures LevelOk(rel, rest[h], top - 1 - h) { assert LevelOk(rel, levels[h + 1], top - (h + 1)); }
      forall h | 0 <= h < top - 1 ensures ChildLevelOf(rel, rest[h], rest[h + 1]) { assert ChildLevelOf(rel, levels[h + 1], levels[h + 1 + 1]); }
    }
    if ChildLevelOf(rel, levels[0], levels[1]) && TreeOk(rel, levels[1][0], top - 1, rest) {
      forall h | 0 <= h <= top ensures LevelOk(rel, levels[h], top - h) { assert h > 0 ==> LevelOk(rel, rest[h - 1], top - 1 - (h - 1)); }
      forall h | 0 <= h < top ensures ChildLevelOf(rel, levels[h], levels[h + 1]) { assert h > 0 ==> ChildLevelOf(rel, rest[h - 1], rest[h - 1 + 1]); }
    }
  }

  ghost predicate AllFull(rel: seq<Page>, levels: seq<seq<nat>>) {
    forall h :: 0 <= h < |levels| ==> FullDowns(rel, levels[h])
  }

  lemma AllFullCons(rel: seq<Page>, levels: seq<seq<nat>>)
    requires levels != []
    ensures AllFull(rel, levels) <==> FullDowns(rel, levels[0]) && AllFull(rel, levels[1..])
  {
    var rest := levels[1..];
    if FullDowns(rel, levels[0]) && AllFull(rel, rest) {
      forall h | 0 <= h < |levels| ensures FullDowns(rel, levels[h]) { assert h > 0 ==> FullDowns(rel, rest[h - 1]); }
    }
    if AllFull(rel, levels) {
      forall h | 0 <= h < |rest| ensures FullDowns(rel, rest[h]) { assert FullDowns(rel, levels[h + 1]); }
    }
  }

  /** The levels of an accepted walk are a whole tree exactly when none of them has a null downlink. */
  lemma {:induction false} WalkedTree(rel: seq<Page>, v: Level, levels: seq<seq<nat>>)
    requires Walked(rel, v, levels)
    ensures TreeOk(rel, v.leftmost, v.level, levels) <==> AllFull(rel, levels)
    decreases |levels|
  {
    var below := FirstBelow(rel, levels[0]).value;
    if below != 0 {
      WalkedTree(rel, Level(v.level - 1, below, false), levels[1..]);
      TreeCons(rel, v.leftmost, v.level, levels);
      AllFullCons(rel, levels);
      if ChildLevelOf(rel, levels[0], levels[1]) { ReachedDownsFull(rel, levels[0], levels[1]); }
    } else if v.level == 0 {
      LeavesFull(rel, levels[0]);
    } else {
      InternalLevel(rel, levels[0], v.level);
      NullStart(rel, levels[0]);
    }
  }

  /** Below the top level there is a tree, which starts at the first downlink. */
  lemma TreeNext(rel: seq<Page>, root: nat, top: nat, levels: seq<seq<nat>>)
    requires top > 0 && TreeOk(rel, root, top, levels)
    ensures levels[1] != [] && levels[1][0] != 0 && FirstBelow(rel, levels[0]) == Some(levels[1][0])
    ensures TreeOk(rel, levels[1][0], top - 1, levels[1..])
  {
    assert LevelOk(rel, levels[0], top - 0) && ChildLevelOf(rel, levels[0], levels[1]);
    var linked :| ChildLevelOk(rel, levels[0], levels[1], linked);
    InternalLevel(rel, levels[0], top);
    TrailHead(rel, levels[0], levels[1], linked);
    assert Block(rel, levels[1][0]);
    TreeCons(rel, root, top, levels);
  }

  /** No other levels make the relation a tree. */
  lemma {:induction false} TreeUnique(rel: seq<Page>, v: Level, levels: seq<seq<nat>>, other: seq<seq<nat>>)
    requires Walked(rel, v, levels) && TreeOk(rel, v.leftmost, v.level, other)
    ensures other == levels
    decreases |levels|
  {
    assert LevelOk(rel, other[0], v.level - 0);
    ChainsAgree(rel, other[0], levels[0]);
    if v.level > 0 {
      TreeNext(rel, v.leftmost, v.level, other);
      TreeUnique(rel, Level(v.level - 1, other[1][0], false), levels[1..], other[1..]);
      assert other == [other[0]] + other[1..] && levels == [levels[0]] + levels[1..];
    } else {
      assert other == [other[0]] && levels == [levels[0]];
    }
  }

  /**
   What bt_check_every_level accepts: levels each of which is in order.  They are a whole tree,
   with every child level reached from above and the leaves at the bottom, if and only if no live
   page on them has a null downlink; otherwise no list of levels is.
   */
  lemma AcceptedTree(rel: seq<Page>, root: nat, top: nat) returns (levels: seq<seq<nat>>)
    requires root != 0 && IndexAccepts(rel, Level(top, root, true))
    ensures Walked(rel, Level(top, root, true), levels)
    ensures TreeOk(rel, root, top, levels) <==> AllFull(rel, levels)
    ensures forall other :: TreeOk(rel, root, top, other) ==> other == levels
  {
    var v := Level(top, root, true);
    levels := AcceptedLevels(rel, v);
    WalkedTree(rel, v, levels);
    forall other | TreeOk(rel, root, top, other) ensures other == levels { TreeUnique(rel, v, levels, other); }
  }

  // ------------------------------------------------------------ exactness where nothing is under way

  /** The levels one finds by following first downlinks down and right links right. */
  ghost predicate Skeleton(rel: seq<Page>, v: Level, levels: seq<seq<nat>>)
    decreases |levels|
  {
    levels != [] && levels[0] != [] && levels[0][0] == v.leftmost && IsChain(rel, levels[0]) && rel[Last(levels[0])].next == 0 &&
    if v.level == 0 then |levels| == 1
    else
      |levels| > 1 && levels[1] != [] && FirstBelow(rel, levels[0]) == Some(levels[1][0]) &&
      Skeleton(rel, Level(v.level - 1, levels[1][0], false), levels[1..])
  }

  lemma {:induction false} WalkedSkeleton(rel: seq<Page>, v: Level, walked: seq<seq<nat>>, levels: seq<seq<nat>>)
    requires Walked(rel, v, walked) && Skeleton(rel, v, levels)
    ensures walked == levels
    decreases |levels|
  {
    ChainsAgree(rel, walked[0], levels[0]);
    if v.level > 0 {
      assert levels[1..][0] == levels[1] && Block(rel, levels[1][0]);
      WalkedSkeleton(rel, Level(v.level - 1, levels[1][0], false), walked[1..], levels[1..]);
      assert walked == [walked[0]] + walked[1..] && levels == [levels[0]] + levels[1..];
    } else {
      assert walked == [walked[0]] && levels == [levels[0]];
    }
  }

  lemma {:induction false} WalkedBothWays(rel: seq<Page>, v: Level, levels: seq<seq<nat>>, h: nat)
    requires Walked(rel, v, levels) && h < |levels| && AllLive(rel, levels[h])
    ensures TwoWay(rel, levels[h])
    decreases h
  {
    if h > 0 { WalkedBothWays(rel, Level(v.level - 1, FirstBelow(rel, levels[0]).value, false), levels[1..], h - 1); }
  }

  lemma TreeFull(rel: seq<Page>, root: nat, top: nat, levels: seq<seq<nat>>)
    requires TreeOk(rel, root, top, levels)
    ensures AllFull(rel, levels)
  {
    forall h | 0 <= h < |levels| ensures FullDowns(rel, levels[h]) {
      assert LevelOk(rel, levels[h], top - h);
      if h < top { ReachedDownsFull(rel, levels[h], levels[h + 1]); } else { LeavesFull(rel, levels[h]); }
    }
  }

  /**
   On levels without half-dead and deleted pages, unfinished splits, or root marks below the top:
   the relation is accepted, and has no null downlink, if and only if the levels are a sound tree.
   */
  lemma SettledExact(rel: seq<Page>, root: nat, top: nat, levels: seq<seq<nat>>)
    requires Skeleton(rel, Level(top, root, true), levels) && Settled(rel, levels)
    requires forall h :: 0 <= h < |levels| ==> AllLive(rel, levels[h])
    ensures IndexAccepts(rel, Level(top, root, true)) && AllFull(rel, levels) <==> SoundTree(rel, root, top, levels)
  {
    if IndexAccepts(rel, Level(top, root, true)) && AllFull(rel, levels) {
      assert Block(rel, levels[0][0]);
      var walked := AcceptedTree(rel, root, top);
      WalkedSkeleton(rel, Level(top, root, true), walked, levels);
      forall h | 0 <= h <= top ensures TwoWay(rel, levels[h]) { WalkedBothWays(rel, Level(top, root, true), levels, h); }
    }
    if SoundTree(rel, root, top, levels) {
      SettledAccepted(rel, root, top, levels);
      TreeFull(rel, root, top, levels);
    }
  }
}
