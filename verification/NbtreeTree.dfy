/**
 What an accepted B-tree is: sorted levels, child levels reached in order, separators that lead
 to the right child, and slots from the top level to every block.
 */
module NbtreeTree {
  import opened Distinctness
  import opened Lexicographic
  import opened NbtreeKey
  import opened NbtreePage
  import opened NbtreeCheck
  import opened NbtreeLevel
  import opened NbtreeFacts
  import opened Optional

  // ----------------------------------------------------------------------- whole trees

  ghost predicate ChildLevelOf(rel: seq<Page>, chain: seq<nat>, trail: seq<nat>) {
    IsChain(rel, chain) && exists linked :: ChildLevelOk(rel, chain, trail, linked)
  }

  /** A whole tree: the root starts level `top`, and each further level is the child level of the one above. */
  ghost predicate TreeOk(rel: seq<Page>, root: nat, top: nat, levels: seq<seq<nat>>) {
    |levels| == top + 1 && levels[0] != [] && levels[0][0] == root &&
    (forall h :: 0 <= h <= top ==> LevelOk(rel, levels[h], top - h)) &&
    (forall h :: 0 <= h < top ==> ChildLevelOf(rel, levels[h], levels[h + 1]))
  }

  // --------------------------------------------------------------------- sorted levels

  function PageKeys(p: Page): seq<Key> {
    var lo := if p.leaf then p.FirstData() else p.FirstData() + 1;
    if lo > |p.items| then [] else seq(|p.items| - lo + 1, i requires 0 <= i <= |p.items| - lo => p.Key(lo + i))
  }

  /** All real keys of the live pages of a level, page after page. */
  function LevelKeys(rel: seq<Page>, chain: seq<nat>): seq<Key>
    requires forall i :: 0 <= i < |chain| ==> chain[i] < |rel|
  {
    if chain == [] then []
    else
      var n := |chain| - 1;
      LevelKeys(rel, chain[..n]) + if Live(rel, chain[n]) then PageKeys(rel[chain[n]]) else []
  }

  ghost predicate Increasing(s: seq<Key>) {
    forall i, j :: 0 <= i < j < |s| ==> Less(s[i], s[j])
  }

  ghost predicate EndsAs(s: seq<Key>, t: seq<Key>) {
    s != [] && t != [] && s[|s| - 1] == t[|t| - 1]
  }

  ghost predicate StepsUp(s: seq<Key>, t: seq<Key>) {
    s != [] && t != [] && Less(s[|s| - 1], t[0])
  }

  lemma {:induction false} AdjacentIncreasing(s: seq<Key>, i: nat, j: nat)
    requires i < j < |s| && forall n :: 0 <= n < |s| - 1 ==> Less(s[n], s[n + 1])
    ensures Less(s[i], s[j])
  {
    assert Less(s[j - 1], s[j - 1 + 1]);
    if i < j - 1 {
      AdjacentIncreasing(s, i, j - 1);
      LessTransitive(s[i], s[j - 1], s[j]);
    }
  }

  lemma PageIncreasing(rel: seq<Page>, p: Page)
    requires Checked(rel, p)
    ensures Increasing(PageKeys(p))
  {
    var s := PageKeys(p);
    var lo := if p.leaf then p.FirstData() else p.FirstData() + 1;
    forall n | 0 <= n < |s| - 1 ensures Less(s[n], s[n + 1]) {
      assert p.Real(lo + n) && ItemAccepts(rel, p, lo + n);
    }
    forall i, j | 0 <= i < j < |s| ensures Less(s[i], s[j]) { AdjacentIncreasing(s, i, j); }
  }

  /** If a and b are increasing and the step between them goes up, a + b is increasing. */
  lemma AppendIncreasing(a: seq<Key>, prev: seq<Key>, b: seq<Key>)
    ensures Increasing(a) && Increasing(b) && b != [] && (a == [] || (EndsAs(a, prev) && StepsUp(prev, b))) ==>
      Increasing(a + b) && EndsAs(a + b, b)
  {
    var s := a + b;
    if Increasing(a) && Increasing(b) && b != [] && (a == [] || (EndsAs(a, prev) && StepsUp(prev, b))) {
      forall n | 0 <= n < |s| - 1 ensures Less(s[n], s[n + 1]) {}
      forall i, j | 0 <= i < j < |s| ensures Less(s[i], s[j]) { AdjacentIncreasing(s, i, j); }
    }
  }

  /** The position of the last live page among the first n of a chain; -1 for none. */
  ghost function LatestIn(rel: seq<Page>, chain: seq<nat>, n: nat): (r: int)
    requires n <= |chain|
    ensures -1 <= r < n && (r >= 0 ==> Live(rel, chain[r]))
    ensures forall k :: r < k < n ==> !Live(rel, chain[k])
  {
    if n == 0 then -1 else if Live(rel, chain[n - 1]) then n - 1 else LatestIn(rel, chain, n - 1)
  }

  lemma {:induction false} RightAlong(rel: seq<Page>, chain: seq<nat>, i: nat, k: nat)
    requires IsChain(rel, chain) && i + k + 1 < |chain|
    ensures RightOf(rel, rel[chain[i]].next, k) == chain[i + k + 1]
  {
    assert Block(rel, chain[i + k]) && rel[chain[i + k]].next == chain[i + k + 1];
    if k > 0 { RightAlong(rel, chain, i, k - 1); }
  }

  /** The right neighbour that the last item is compared with is the next live page of the chain. */
  lemma SkipsAlong(rel: seq<Page>, chain: seq<nat>, i: nat, j: nat)
    requires IsChain(rel, chain) && i < j < |chain| && Live(rel, chain[j]) && forall k :: i < k < j ==> !Live(rel, chain[k])
    ensures SkipsTo(rel, rel[chain[i]], j - i - 1, chain[j])
  {
    RightAlong(rel, chain, i, j - i - 1);
    assert Block(rel, chain[j]);
    forall m: nat | m < j - i - 1 ensures SkipsOver(rel, rel[chain[i]], m) {
      RightAlong(rel, chain, i, m);
      assert Block(rel, chain[i + m + 1]) && rel[chain[i + m + 1]].next == chain[i + m + 1 + 1] && Block(rel, chain[i + m + 1 + 1]);
    }
  }

  /** Every live page of an accepted level has a real item. */
  ghost predicate Keyed(rel: seq<Page>, chain: seq<nat>, level: nat) {
    LevelOk(rel, chain, level) && forall i :: 0 <= i < |chain| && Live(rel, chain[i]) ==> PageKeys(rel[chain[i]]) != []
  }

  lemma LastBelowNext(rel: seq<Page>, p: Page, n: nat, b: nat)
    requires p.Real(|p.items|) && ItemAccepts(rel, p, |p.items|) && !p.Rightmost() && SkipsTo(rel, p, n, b)
    requires PageKeys(p) != [] && PageKeys(rel[b]) != []
    ensures StepsUp(PageKeys(p), PageKeys(rel[b]))
  {
    var m: nat, c: nat :|
      SkipsTo(rel, p, m, c) && (FirstReal(rel[c]).Some? ==> Less(p.Key(|p.items|), FirstReal(rel[c]).value));
    SkipsToOne(rel, p, n, b);
    assert FirstReal(rel[b]) == Some(PageKeys(rel[b])[0]);
  }

  lemma LastItemAccepted(rel: seq<Page>, chain: seq<nat>, level: nat, i: nat)
    requires LevelOk(rel, chain, level) && i + 1 < |chain| && Live(rel, chain[i]) && PageKeys(rel[chain[i]]) != []
    ensures var p := rel[chain[i]]; !p.Rightmost() && p.Real(|p.items|) && ItemAccepts(rel, p, |p.items|)
  {
    assert PageChecked(rel, chain, i, level) && rel[chain[i]].next == chain[i + 1] && Block(rel, chain[i + 1]);
  }

  lemma NeighboursIncrease(rel: seq<Page>, chain: seq<nat>, level: nat, i: nat, j: nat)
    requires Keyed(rel, chain, level) && i < j < |chain| && Live(rel, chain[i]) && Live(rel, chain[j])
    requires forall k :: i < k < j ==> !Live(rel, chain[k])
    ensures StepsUp(PageKeys(rel[chain[i]]), PageKeys(rel[chain[j]]))
  {
    assert PageKeys(rel[chain[i]]) != [] && PageKeys(rel[chain[j]]) != [];
    LastItemAccepted(rel, chain, level, i);
    SkipsAlong(rel, chain, i, j);
    LastBelowNext(rel, rel[chain[i]], j - i - 1, chain[j]);
  }

  lemma {:induction false} PrefixSorted(rel: seq<Page>, chain: seq<nat>, level: nat, n: nat)
    requires Keyed(rel, chain, level) && n <= |chain|
    ensures Increasing(LevelKeys(rel, chain[..n]))
    ensures var i := LatestIn(rel, chain, n);
      if i < 0 then LevelKeys(rel, chain[..n]) == [] else EndsAs(LevelKeys(rel, chain[..n]), PageKeys(rel[chain[i]]))
  {
    if n > 0 {
      assert chain[..n][..n - 1] == chain[..n - 1];
      PrefixSorted(rel, chain, level, n - 1);
      if Live(rel, chain[n - 1]) {
        var i := LatestIn(rel, chain, n - 1);
        assert PageChecked(rel, chain, n - 1, level) && Block(rel, chain[n - 1]) && PageKeys(rel[chain[n - 1]]) != [];
        PageIncreasing(rel, rel[chain[n - 1]]);
        if i >= 0 { NeighboursIncrease(rel, chain, level, i, n - 1); }
        AppendIncreasing(LevelKeys(rel, chain[..n - 1]), if i >= 0 then PageKeys(rel[chain[i]]) else [], PageKeys(rel[chain[n - 1]]));
      }
    }
  }

  /**
   On an accepted level on which every live page has a real item, the items of all live pages
   together are strictly increasing, and each is within its page's high key.
   */
  lemma LevelSorted(rel: seq<Page>, chain: seq<nat>, level: nat)
    requires Keyed(rel, chain, level)
    ensures Increasing(LevelKeys(rel, chain))
    ensures forall i, off: nat :: 0 <= i < |chain| && Live(rel, chain[i]) && rel[chain[i]].Real(off) && rel[chain[i]].HasHigh() ==>
      Leq(rel[chain[i]].Key(off), rel[chain[i]].High())
  {
    PrefixSorted(rel, chain, level, |chain|);
    assert chain[..|chain|] == chain;
    forall i, off: nat | 0 <= i < |chain| && Live(rel, chain[i]) && rel[chain[i]].Real(off) && rel[chain[i]].HasHigh()
      ensures Leq(rel[chain[i]].Key(off), rel[chain[i]].High())
    {
      assert PageChecked(rel, chain, i, level) && ItemAccepts(rel, rel[chain[i]], off);
    }
  }

  // ---------------------------------------------------------------------- child levels

  lemma {:induction false} PickedFrom(trail: seq<nat>, linked: seq<bool>, j: nat) returns (i: nat)
    requires |trail| == |linked| && j < |Picked(trail, linked)|
    ensures i < |trail| && linked[i] && trail[i] == Picked(trail, linked)[j]
    ensures j <= i && |Picked(trail[..i], linked[..i])| == j
  {
    var n := |trail| - 1;
    if j < |Picked(trail[..n], linked[..n])| {
      i := PickedFrom(trail[..n], linked[..n], j);
      assert trail[..n][..i] == trail[..i] && linked[..n][..i] == linked[..i];
    } else {
      i := n;
      PickedLength(trail[..n], linked[..n]);
    }
  }

  lemma {:induction false} PickedLength(trail: seq<nat>, linked: seq<bool>)
    requires |trail| == |linked|
    ensures |Picked(trail, linked)| <= |trail|
  {
    if trail != [] { PickedLength(trail[..|trail| - 1], linked[..|trail| - 1]); }
  }

  lemma {:induction false} PickedMonotone(trail: seq<nat>, linked: seq<bool>, i: nat, n: nat)
    requires |trail| == |linked| && i <= n <= |trail|
    ensures |Picked(trail[..i], linked[..i])| <= |Picked(trail[..n], linked[..n])|
  {
    if i < n {
      PickedMonotone(trail, linked, i, n - 1);
      assert trail[..n][..n - 1] == trail[..n - 1] && linked[..n][..n - 1] == linked[..n - 1];
    }
  }

  lemma {:induction false} PickedHas(trail: seq<nat>, linked: seq<bool>, i: nat)
    requires |trail| == |linked| && i < |trail| && linked[i]
    ensures trail[i] in Picked(trail, linked)
  {
    var n := |trail| - 1;
    if i < n { PickedHas(trail[..n], linked[..n], i); }
  }

  /** The blocks of a trail without repetition that were picked are those with the mark. */
  lemma PickedIffLinked(trail: seq<nat>, linked: seq<bool>, i: nat)
    requires |trail| == |linked| && i < |trail| && Distinct(trail)
    ensures trail[i] in Picked(trail, linked) <==> linked[i]
  {
    if linked[i] {
      PickedHas(trail, linked, i);
    } else if trail[i] in Picked(trail, linked) {
      var j :| 0 <= j < |Picked(trail, linked)| && Picked(trail, linked)[j] == trail[i];
      var m := PickedFrom(trail, linked, j);
    }
  }

  /**
   The right-link chain of the child level of an accepted level: no block comes twice, the
   downlinks of the level come in their order, and a page on the chain that no downlink names is
   half-dead or deleted, a root, right of an unfinished split, or the top of an unfinished deletion.
   */
  lemma ChildLevelExact(rel: seq<Page>, chain: seq<nat>, trail: seq<nat>, linked: seq<bool>)
    requires IsChain(rel, chain) && ChildLevelOk(rel, chain, trail, linked)
    ensures Distinct(trail) && Picked(trail, linked) == LevelDowns(rel, chain)
    ensures forall i :: 0 <= i < |trail| ==>
      (linked[i] <==> trail[i] in LevelDowns(rel, chain)) && (trail[i] !in LevelDowns(rel, chain) ==> Excused(rel, trail, i))
  {
    EndedChainDistinct(rel, trail);
    forall i | 0 <= i < |trail|
      ensures (linked[i] <==> trail[i] in LevelDowns(rel, chain)) && (trail[i] !in LevelDowns(rel, chain) ==> Excused(rel, trail, i))
    {
      PickedIffLinked(trail, linked, i);
    }
  }

  /** Downlinks are reached in their order: one position each, and positions grow with the downlinks. */
  lemma DownlinksInOrder(rel: seq<Page>, chain: seq<nat>, trail: seq<nat>, linked: seq<bool>, j: nat, k: nat)
    returns (i: nat, m: nat)
    requires IsChain(rel, chain) && ChildLevelOk(rel, chain, trail, linked)
    requires j < k < |LevelDowns(rel, chain)|
    ensures i < m < |trail| && trail[i] == LevelDowns(rel, chain)[j] && trail[m] == LevelDowns(rel, chain)[k]
    ensures forall n :: 0 <= n < |trail| && trail[n] == LevelDowns(rel, chain)[j] ==> n == i
  {
    EndedChainDistinct(rel, trail);
    i := PickedFrom(trail, linked, j);
    m := PickedFrom(trail, linked, k);
    if m <= i { PickedMonotone(trail, linked, m, i); }
  }

  /** With complete splits only, the child level is exactly the list of downlinks. */
  lemma {:induction false} AllLinked(trail: seq<nat>, linked: seq<bool>)
    requires |trail| == |linked| && forall i :: 0 <= i < |linked| ==> linked[i]
    ensures Picked(trail, linked) == trail
  {
    if trail != [] { AllLinked(trail[..|trail| - 1], linked[..|trail| - 1]); }
  }

  // ----------------------------------------------------------------- choosing a child

  /** The slot an index descent takes for k: the last pivot strictly below k, else the first slot. */
  function Choose(p: Page, k: Key, hi: nat): nat
    requires p.FirstData() <= hi <= |p.items|
    decreases hi
  {
    if hi == p.FirstData() || Less(p.Key(hi), k) then hi else Choose(p, k, hi - 1)
  }

  /** A slot whose pivot is below k and whose next pivot is not is the one chosen. */
  lemma {:induction false} ChooseExact(rel: seq<Page>, p: Page, k: Key, off: nat, hi: nat)
    requires !p.leaf && Checked(rel, p) && p.Data(off) && off <= hi <= |p.items|
    requires p.Real(off) ==> Less(p.Key(off), k)
    requires off < |p.items| ==> Leq(k, p.Key(off + 1))
    ensures Choose(p, k, hi) == off
  {
    if hi > off {
      PivotsAbove(rel, p, k, off, hi);
      NotLess(p.Key(hi), k);
      ChooseExact(rel, p, k, off, hi - 1);
    }
  }

  lemma {:induction false} PivotsAbove(rel: seq<Page>, p: Page, k: Key, off: nat, hi: nat)
    requires !p.leaf && Checked(rel, p) && p.Data(off) && off < hi <= |p.items|
    requires Leq(k, p.Key(off + 1))
    ensures Leq(k, p.Key(hi))
  {
    if hi > off + 1 {
      PivotsAbove(rel, p, k, off, hi - 1);
      assert p.Real(hi - 1) && ItemAccepts(rel, p, hi - 1);
      LeqTransitive(k, p.Key(hi - 1), p.Key(hi));
    }
  }

  lemma {:induction false} ChosenBelow(p: Page, k: Key, hi: nat)
    requires p.FirstData() <= hi <= |p.items|
    ensures var off := Choose(p, k, hi); p.FirstData() <= off <= hi && (off != p.FirstData() ==> Less(p.Key(off), k))
  {
    if hi > p.FirstData() && !Less(p.Key(hi), k) { ChosenBelow(p, k, hi - 1); }
  }

  /** A page whose checks have all passed. */
  ghost predicate Good(rel: seq<Page>, b: nat) {
    Block(rel, b) && !rel[b].Ignore() && !rel[b].incomplete && Checked(rel, rel[b]) &&
    LastChildGoesOn(rel, rel[b])
  }

  /** k is not above the high key of block b. */
  ghost predicate Under(rel: seq<Page>, b: nat, k: Key) {
    b < |rel| && (rel[b].HasHigh() ==> Leq(k, rel[b].High()))
  }

  /** If k is within the high key of a child, it is within the next pivot and the parent's high key. */
  lemma UnderParent(rel: seq<Page>, b: nat, off: nat, k: Key)
    requires Good(rel, b) && !rel[b].leaf && rel[b].Data(off) && Good(rel, rel[b].Down(off))
    requires Under(rel, rel[b].Down(off), k)
    ensures off < |rel[b].items| ==> Leq(k, rel[b].Key(off + 1))
    ensures Under(rel, b, k)
  {
    var p := rel[b];
    var c := rel[p.Down(off)];
    assert ChildKnown(rel, p, off);
    if off < |p.items| {
      assert p.Real(off + 1) && ItemAccepts(rel, p, off + 1);
      if p.HasHigh() { LeqTransitive(k, p.Key(off + 1), p.High()); }
    }
  }

  /**
   Parent and child both accepted: for every real item of a child, the last pivot strictly below
   the item is the one that leads to that child.
   */
  lemma SeparatorLeadsToChild(rel: seq<Page>, b: nat, off: nat, o: nat)
    requires Good(rel, b) && !rel[b].leaf && rel[b].Data(off) && Good(rel, rel[b].Down(off))
    requires rel[rel[b].Down(off)].Real(o)
    ensures Choose(rel[b], rel[rel[b].Down(off)].Key(o), |rel[b].items|) == off
  {
    var p := rel[b];
    var c := rel[p.Down(off)];
    var k := c.Key(o);
    assert ItemAccepts(rel, c, o) && ChildKnown(rel, p, off);
    UnderParent(rel, b, off, k);
    ChooseExact(rel, p, k, off, |p.items|);
  }

  // --------------------------------------------------------------- descent from the root

  datatype Hop = Hop(b: nat, off: nat)

  /** The block reached after i hops. */
  function At(path: seq<Hop>, leaf: nat, i: nat): nat
    requires i <= |path|
  {
    if i < |path| then path[i].b else leaf
  }

  /** Slots taken from the top of the tree down to block `leaf`. */
  ghost predicate IsPath(rel: seq<Page>, path: seq<Hop>, leaf: nat) {
    (forall i :: 0 <= i <= |path| ==> Good(rel, At(path, leaf, i))) &&
    (forall i :: 0 <= i < |path| ==> IsHop(rel, path, leaf, i))
  }

  ghost predicate IsHop(rel: seq<Page>, path: seq<Hop>, leaf: nat, i: nat)
    requires i < |path|
  {
    path[i].b < |rel| &&
    var p := rel[path[i].b];
    !p.leaf && p.Data(path[i].off) && p.Down(path[i].off) == At(path, leaf, i + 1)
  }

  /** The hop is the one that a search for k takes. */
  ghost predicate Taken(rel: seq<Page>, hop: Hop, k: Key) {
    hop.b < |rel| && rel[hop.b].Data(hop.off) && Choose(rel[hop.b], k, |rel[hop.b].items|) == hop.off
  }

  /** k is above the pivot of the hop's slot, if the slot has one. */
  ghost predicate Above(rel: seq<Page>, hop: Hop, k: Key) {
    hop.b < |rel| && (rel[hop.b].Real(hop.off) ==> Less(rel[hop.b].Key(hop.off), k))
  }

  ghost predicate SearchTakes(rel: seq<Page>, path: seq<Hop>, k: Key) {
    forall i :: 0 <= i < |path| ==> Taken(rel, path[i], k)
  }

  /** k is above the pivots of the path, the one right above the leaf not counted. */
  ghost predicate AboveAncestors(rel: seq<Page>, path: seq<Hop>, k: Key) {
    forall i :: 0 <= i < |path| - 1 ==> Above(rel, path[i], k)
  }

  /** The high key of the leaf bounds k all the way up. */
  lemma {:induction false} UnderPath(rel: seq<Page>, path: seq<Hop>, leaf: nat, k: Key, i: nat)
    requires IsPath(rel, path, leaf) && Under(rel, leaf, k) && i <= |path|
    ensures Under(rel, At(path, leaf, i), k)
    decreases |path| - i
  {
    if i < |path| {
      UnderPath(rel, path, leaf, k, i + 1);
      assert Good(rel, At(path, leaf, i)) && IsHop(rel, path, leaf, i) && Good(rel, At(path, leaf, i + 1));
      UnderParent(rel, path[i].b, path[i].off, k);
    }
  }

  lemma TakenIffAbove(rel: seq<Page>, path: seq<Hop>, leaf: nat, k: Key, i: nat)
    requires IsPath(rel, path, leaf) && Under(rel, leaf, k) && i < |path|
    ensures Taken(rel, path[i], k) <==> Above(rel, path[i], k)
  {
    assert Good(rel, At(path, leaf, i)) && IsHop(rel, path, leaf, i) && Good(rel, At(path, leaf, i + 1));
    UnderPath(rel, path, leaf, k, i + 1);
    UnderParent(rel, path[i].b, path[i].off, k);
    var p := rel[path[i].b];
    ChosenBelow(p, k, |p.items|);
    if Above(rel, path[i], k) { ChooseExact(rel, p, k, path[i].off, |p.items|); }
  }

  /** The lower bound check covers the pivot right above the leaf. */
  lemma LastHopTaken(rel: seq<Page>, path: seq<Hop>, leaf: nat, o: nat)
    requires IsPath(rel, path, leaf) && path != [] && leaf < |rel| && rel[leaf].Real(o)
    ensures Taken(rel, path[|path| - 1], rel[leaf].Key(o))
  {
    var n := |path| - 1;
    assert Good(rel, At(path, leaf, n)) && IsHop(rel, path, leaf, n) && Good(rel, At(path, leaf, n + 1));
    SeparatorLeadsToChild(rel, path[n].b, path[n].off, o);
  }

  /**
   For an item stored on an accepted leaf, a search takes every slot of the leaf's path exactly when
   the item is above the pivots of the path, the last one excepted.  The checks guarantee all the
   upper bounds; of the lower bounds they guarantee the one right above the leaf.
   */
  lemma TakenIffAboveAncestors(rel: seq<Page>, path: seq<Hop>, leaf: nat, o: nat)
    requires IsPath(rel, path, leaf) && leaf < |rel| && rel[leaf].Real(o)
    ensures SearchTakes(rel, path, rel[leaf].Key(o)) <==> AboveAncestors(rel, path, rel[leaf].Key(o))
  {
    assert Good(rel, At(path, leaf, |path|)) && ItemAccepts(rel, rel[leaf], o);
    forall i | 0 <= i < |path| ensures Taken(rel, path[i], rel[leaf].Key(o)) <==> Above(rel, path[i], rel[leaf].Key(o)) {
      TakenIffAbove(rel, path, leaf, rel[leaf].Key(o), i);
    }
    if path != [] { LastHopTaken(rel, path, leaf, o); }
  }

  // ------------------------------------------------------------- paths of accepted trees

  /** On these levels no deletion and no split is under way, and only the top level holds a root. */
  ghost predicate Settled(rel: seq<Page>, levels: seq<seq<nat>>) {
    forall h, i :: 0 <= h < |levels| && 0 <= i < |levels[h]| ==> SettledAt(rel, levels[h][i], h == 0)
  }

  ghost predicate SettledAt(rel: seq<Page>, b: nat, onTop: bool) {
    Live(rel, b) && !rel[b].incomplete && (rel[b].root ==> onTop)
  }

  ghost predicate SettledTree(rel: seq<Page>, root: nat, top: nat, levels: seq<seq<nat>>) {
    TreeOk(rel, root, top, levels) && Settled(rel, levels)
  }

  lemma TreeGood(rel: seq<Page>, root: nat, top: nat, levels: seq<seq<nat>>, h: nat, b: nat)
    requires SettledTree(rel, root, top, levels) && h <= top && b in levels[h]
    ensures Good(rel, b) && rel[b].level == top - h
  {
    var i :| 0 <= i < |levels[h]| && levels[h][i] == b;
    assert LevelOk(rel, levels[h], top - h) && PageChecked(rel, levels[h], i, top - h) && Block(rel, b);
    assert SettledAt(rel, levels[h][i], h == 0);
    if h < top {
      assert ChildLevelOf(rel, levels[h], levels[h + 1]);
      var linked :| ChildLevelOk(rel, levels[h], levels[h + 1], linked);
    }
  }

  lemma {:induction false} DownsMember(p: Page, hi: nat, c: nat)
    requires hi <= |p.items|
    ensures c in DownsTo(p, hi) <==> exists off: nat :: p.Data(off) && off <= hi && p.Down(off) == c
  {
    if hi >= p.FirstData() {
      DownsMember(p, hi - 1, c);
      if p.Down(hi) == c { assert p.Data(hi); }
    }
  }

  lemma {:induction false} LevelDownsMember(rel: seq<Page>, chain: seq<nat>, c: nat) returns (i: nat)
    requires IsChain(rel, chain) && c in LevelDowns(rel, chain)
    ensures i < |chain| && Live(rel, chain[i]) && c in Downs(rel[chain[i]])
  {
    var n := |chain| - 1;
    assert Block(rel, chain[n]);
    if Live(rel, chain[n]) && c in Downs(rel[chain[n]]) {
      i := n;
    } else {
      i := LevelDownsMember(rel, chain[..n], c);
    }
  }

  lemma {:induction false} LevelDownsHas(rel: seq<Page>, chain: seq<nat>, i: nat, c: nat)
    requires IsChain(rel, chain) && i < |chain| && Live(rel, chain[i]) && c in Downs(rel[chain[i]])
    ensures c in LevelDowns(rel, chain)
  {
    var n := |chain| - 1;
    assert Block(rel, chain[n]) && chain == chain[..n] + [chain[n]];
    LevelDownsSnoc(rel, chain[..n], chain[n]);
    if i < n { LevelDownsHas(rel, chain[..n], i, c); }
  }

  /** The children of the blocks of a level are on the next level. */
  lemma ChildBelow(rel: seq<Page>, root: nat, top: nat, levels: seq<seq<nat>>, h: nat, b: nat, off: nat)
    requires SettledTree(rel, root, top, levels) && h < top && b in levels[h] && b < |rel| && rel[b].Data(off)
    ensures rel[b].Down(off) in levels[h + 1]
  {
    var i :| 0 <= i < |levels[h]| && levels[h][i] == b;
    assert ChildLevelOf(rel, levels[h], levels[h + 1]) && SettledAt(rel, levels[h][i], h == 0);
    var linked :| ChildLevelOk(rel, levels[h], levels[h + 1], linked);
    var c := rel[b].Down(off);
    DownsMember(rel[b], |rel[b].items|, c);
    LevelDownsHas(rel, levels[h], i, c);
    var j :| 0 <= j < |Picked(levels[h + 1], linked)| && Picked(levels[h + 1], linked)[j] == c;
    var m := PickedFrom(levels[h + 1], linked, j);
  }

  /** Interrupted deletions end in a half-dead leaf, and there is none below. */
  lemma {:induction false} NoDeletionTop(rel: seq<Page>, root: nat, top: nat, levels: seq<seq<nat>>, h: nat, b: nat, of: nat)
    requires SettledTree(rel, root, top, levels) && h <= top && b in levels[h]
    ensures !DeletionTop(rel, of, b)
    decreases top - h
  {
    TreeGood(rel, root, top, levels, h, b);
    if h < top && rel[b].Data(rel[b].FirstData()) {
      ChildBelow(rel, root, top, levels, h, b, rel[b].FirstData());
      var c := rel[b].Down(rel[b].FirstData());
      TreeGood(rel, root, top, levels, h + 1, c);
      NoDeletionTop(rel, root, top, levels, h + 1, c, of);
    }
  }

  /** In a settled tree the blocks of a level are exactly the downlinks of the level above. */
  lemma ChildLevelIsDownlinks(rel: seq<Page>, root: nat, top: nat, levels: seq<seq<nat>>, h: nat)
    requires SettledTree(rel, root, top, levels) && h < top
    ensures IsChain(rel, levels[h]) && levels[h + 1] == LevelDowns(rel, levels[h]) && Distinct(levels[h + 1])
  {
    assert ChildLevelOf(rel, levels[h], levels[h + 1]);
    var linked :| ChildLevelOk(rel, levels[h], levels[h + 1], linked);
    ChildLevelExact(rel, levels[h], levels[h + 1], linked);
    forall i | 0 <= i < |linked| ensures linked[i] {
      assert SettledAt(rel, levels[h + 1][i], h + 1 == 0);
      NoDeletionTop(rel, root, top, levels, h + 1, levels[h + 1][i], levels[h + 1][i]);
      assert i > 0 ==> SettledAt(rel, levels[h + 1][i - 1], h + 1 == 0);
    }
    AllLinked(levels[h + 1], linked);
  }

  lemma ParentSlot(rel: seq<Page>, root: nat, top: nat, levels: seq<seq<nat>>, h: nat, b: nat)
    returns (up: nat, off: nat)
    requires SettledTree(rel, root, top, levels) && h < top && b in levels[h + 1]
    ensures up in levels[h] && up < |rel| && !rel[up].leaf && rel[up].Data(off) && rel[up].Down(off) == b
  {
    ChildLevelIsDownlinks(rel, root, top, levels, h);
    var i := LevelDownsMember(rel, levels[h], b);
    up := levels[h][i];
    TreeGood(rel, root, top, levels, h, up);
    DownsMember(rel[up], |rel[up].items|, b);
    off :| rel[up].Data(off) && rel[up].Down(off) == b;
  }

  /** Every block of a settled tree is reached by slots from the top level. */
  lemma {:induction false} EveryBlockHasPath(rel: seq<Page>, root: nat, top: nat, levels: seq<seq<nat>>, h: nat, b: nat)
    returns (path: seq<Hop>)
    requires SettledTree(rel, root, top, levels) && h <= top && b in levels[h]
    ensures IsPath(rel, path, b) && |path| == h && OnLevels(levels, 0, path, b)
  {
    TreeGood(rel, root, top, levels, h, b);
    if h == 0 { return []; }
    var up, off := ParentSlot(rel, root, top, levels, h - 1, b);
    TreeGood(rel, root, top, levels, h - 1, up);
    var front := EveryBlockHasPath(rel, root, top, levels, h - 1, up);
    path := front + [Hop(up, off)];
    OnLevelsSnoc(levels, front, up, off, b);
    PathSnoc(rel, front, up, off, b);
  }

  /** The hops of the path start on the levels from h on. */
  ghost predicate OnLevels(levels: seq<seq<nat>>, h: nat, path: seq<Hop>, b: nat) {
    h + |path| < |levels| && forall i :: 0 <= i <= |path| ==> At(path, b, i) in levels[h + i]
  }

  lemma OnLevelsSnoc(levels: seq<seq<nat>>, front: seq<Hop>, up: nat, off: nat, b: nat)
    requires OnLevels(levels, 0, front, up) && |front| + 1 < |levels| && b in levels[|front| + 1]
    ensures OnLevels(levels, 0, front + [Hop(up, off)], b)
  {
    var path := front + [Hop(up, off)];
    forall i | 0 <= i <= |path| ensures At(path, b, i) in levels[0 + i] {
      assert i < |path| ==> At(path, b, i) == At(front, up, i) && At(front, up, i) in levels[0 + i];
    }
  }

  lemma PathSnoc(rel: seq<Page>, front: seq<Hop>, up: nat, off: nat, b: nat)
    requires IsPath(rel, front, up) && Good(rel, up) && Good(rel, b)
    requires !rel[up].leaf && rel[up].Data(off) && rel[up].Down(off) == b
    ensures IsPath(rel, front + [Hop(up, off)], b)
  {
    var path := front + [Hop(up, off)];
    forall i | 0 <= i <= |path| ensures Good(rel, At(path, b, i)) {
      if i < |path| { assert At(path, b, i) == At(front, up, i); }
    }
    forall i | 0 <= i < |path| ensures IsHop(rel, path, b, i) {
      assert At(path, b, i) == At(front, up, i);
      if i < |front| { assert IsHop(rel, front, up, i) && At(path, b, i + 1) == At(front, up, i + 1); }
    }
  }
}
