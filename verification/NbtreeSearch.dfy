/**
 The index search of nbtsearch.c on an accepted tree: in each level it moves right past pages whose
 high key is below the search key, then goes down by binary search.  It finds a stored item exactly
 when the item is above the pivots of all ancestors, and the checks guarantee only the last of these.
 */
module NbtreeSearch {
  import opened Distinctness
  import opened Lexicographic
  import opened NbtreeKey
  import opened NbtreePage
  import opened NbtreeCheck
  import opened NbtreeLevel
  import opened NbtreeFacts
  import opened NbtreeTree
  import opened NbtreeAccept

  // ----------------------------------------------------------------- one page

  /** The pivots of a page in strictly ascending order. */
  ghost predicate PivotsAscend(p: Page) {
    forall i: nat, j: nat :: p.FirstData() < i < j <= |p.items| ==> Less(p.Key(i), p.Key(j))
  }

  lemma {:induction false} ChosenLast(p: Page, k: Key, off: nat, hi: nat)
    requires p.FirstData() <= off <= hi <= |p.items| && (off > p.FirstData() ==> Less(p.Key(off), k))
    requires forall i: nat :: off < i <= |p.items| ==> !Less(p.Key(i), k)
    ensures Choose(p, k, hi) == off
  {
    if hi > off { ChosenLast(p, k, off, hi - 1); }
  }

  /** _bt_binsrch on an internal page: the slot of the last pivot below the key. */
  method BinSrch(p: Page, k: Key) returns (off: nat)
    requires !p.leaf && p.Data(p.FirstData())
    ensures p.Data(off)
    ensures PivotsAscend(p) ==> off == Choose(p, k, |p.items|)
  {
    var low, high := p.FirstData(), |p.items| + 1;
    while high > low
      invariant p.FirstData() <= low <= high <= |p.items| + 1 && high > p.FirstData()
      invariant low > p.FirstData() + 1 ==> Less(p.Key(low - 1), k)
      invariant high <= |p.items| ==> !Less(p.Key(high), k)
    {
      var mid := low + (high - low) / 2;
      if p.NegInf(mid) || Less(p.Key(mid), k) { low := mid + 1; } else { high := mid; }
    }
    off := low - 1;
    if PivotsAscend(p) {
      forall i: nat | off < i <= |p.items| ensures !Less(p.Key(i), k) {
        if i > high && Less(p.Key(i), k) {
          LessTransitive(p.Key(high), p.Key(i), k);
        }
      }
      ChosenLast(p, k, off, |p.items|);
    }
  }

  /** The pivots of a checked page ascend, so binary search is exact on it. */
  lemma CheckedAscends(rel: seq<Page>, p: Page)
    requires !p.leaf && Checked(rel, p)
    ensures PivotsAscend(p)
  {
    forall i: nat, j: nat | p.FirstData() < i < j <= |p.items| ensures Less(p.Key(i), p.Key(j)) { PivotBelow(rel, p, i, j); }
  }

  lemma {:induction false} PivotBelow(rel: seq<Page>, p: Page, i: nat, j: nat)
    requires !p.leaf && Checked(rel, p) && p.FirstData() < i < j <= |p.items|
    ensures Less(p.Key(i), p.Key(j))
  {
    assert p.Real(j - 1) && ItemAccepts(rel, p, j - 1);
    if i < j - 1 {
      PivotBelow(rel, p, i, j - 1);
      LessTransitive(p.Key(i), p.Key(j - 1), p.Key(j));
    }
  }

  // ----------------------------------------------------------------- the search

  /** _bt_moveright steps over block b: it is dead, or k is above its high key. */
  ghost predicate Passed(rel: seq<Page>, b: nat, k: Key) {
    Block(rel, b) && !rel[b].Rightmost() && (rel[b].Ignore() || (rel[b].HasHigh() && Less(rel[b].High(), k)))
  }

  /** _bt_moveright, from block b, stops at block c after n steps. */
  ghost predicate MovesTo(rel: seq<Page>, b: nat, k: Key, n: nat, c: nat) {
    c == RightOf(rel, b, n) && Block(rel, c) && !rel[c].Ignore() && !Passed(rel, c, k) &&
    forall m: nat :: m < n ==> Passed(rel, RightOf(rel, b, m), k)
  }

  /** _bt_search for k, from block b and h levels down, ends at the leaf. */
  ghost predicate SearchEnds(rel: seq<Page>, b: nat, k: Key, h: nat, leaf: nat)
    decreases h, 1
  {
    exists n: nat, c: nat :: MovesTo(rel, b, k, n, c) && Lands(rel, c, k, h, leaf)
  }

  /** From page c on, which k belongs to on its level. */
  ghost predicate Lands(rel: seq<Page>, c: nat, k: Key, h: nat, leaf: nat)
    decreases h, 0
  {
    c < |rel| &&
    if rel[c].leaf then h == 0 && c == leaf
    else h > 0 && rel[c].Data(rel[c].FirstData()) && SearchEnds(rel, ChildFor(rel[c], k), k, h - 1, leaf)
  }

  function ChildFor(p: Page, k: Key): nat
    requires p.Data(p.FirstData())
  {
    ChosenBelow(p, k, |p.items|);
    p.Down(Choose(p, k, |p.items|))
  }

  lemma MovesToOne(rel: seq<Page>, b: nat, k: Key, n: nat, c: nat, m: nat, d: nat)
    requires MovesTo(rel, b, k, n, c) && MovesTo(rel, b, k, m, d)
    ensures n == m && c == d
  {
    assert (n < m ==> Passed(rel, RightOf(rel, b, n), k)) && (m < n ==> Passed(rel, RightOf(rel, b, m), k));
  }

  /** A search ends at one leaf at most. */
  lemma {:induction false} SearchEndsOnce(rel: seq<Page>, b: nat, k: Key, h: nat, leaf: nat, other: nat)
    requires SearchEnds(rel, b, k, h, leaf) && SearchEnds(rel, b, k, h, other)
    ensures leaf == other
    decreases h
  {
    var n: nat, c: nat :| MovesTo(rel, b, k, n, c) && Lands(rel, c, k, h, leaf);
    var m: nat, d: nat :| MovesTo(rel, b, k, m, d) && Lands(rel, d, k, h, other);
    MovesToOne(rel, b, k, n, c, m, d);
    if !rel[c].leaf { SearchEndsOnce(rel, ChildFor(rel[c], k), k, h - 1, leaf, other); }
  }

  // ----------------------------------------------------------------- going down an accepted tree

  /** A key within the high key of a page stays on the page. */
  lemma StaysOn(rel: seq<Page>, b: nat, k: Key)
    requires Good(rel, b) && Under(rel, b, k)
    ensures MovesTo(rel, b, k, 0, b)
  {
    if rel[b].HasHigh() { NotLess(rel[b].High(), k); }
  }

  /** The pivot right of the chosen slot is not below k. */
  lemma {:induction false} NotBelowNext(p: Page, k: Key, hi: nat, i: nat)
    requires p.FirstData() <= hi <= |p.items| && Choose(p, k, hi) < i <= hi
    ensures !Less(p.Key(i), k)
    decreases hi
  {
    ChosenBelow(p, k, hi);
    if i < hi { NotBelowNext(p, k, hi - 1, i); }
  }

  /** Within the page's high key, k is within the high key of the child it chooses. */
  lemma ChosenKeepsUnder(rel: seq<Page>, b: nat, k: Key, off: nat)
    requires Good(rel, b) && !rel[b].leaf && rel[b].Data(rel[b].FirstData()) && Under(rel, b, k)
    requires off == Choose(rel[b], k, |rel[b].items|) && rel[b].Data(off) && Good(rel, rel[b].Down(off))
    ensures Under(rel, rel[b].Down(off), k)
  {
    var p := rel[b];
    assert ChildKnown(rel, p, off);
    if off < |p.items| {
      NotBelowNext(p, k, |p.items|, off + 1);
      NotLess(p.Key(off + 1), k);
    }
  }

  /** The slots of the path, which starts on level h, are those that a search for k takes. */
  ghost predicate Descends(rel: seq<Page>, levels: seq<seq<nat>>, h: nat, path: seq<Hop>, leaf: nat, k: Key) {
    IsPath(rel, path, leaf) && SearchTakes(rel, path, k) && OnLevels(levels, h, path, leaf)
  }

  lemma AtCons(hop: Hop, rest: seq<Hop>, leaf: nat)
    ensures forall i :: 0 < i <= |rest| + 1 ==> At([hop] + rest, leaf, i) == At(rest, leaf, i - 1)
  {}

  lemma IsPathCons(rel: seq<Page>, hop: Hop, rest: seq<Hop>, leaf: nat)
    requires Good(rel, hop.b) && !rel[hop.b].leaf && rel[hop.b].Data(hop.off) && rel[hop.b].Down(hop.off) == At(rest, leaf, 0)
    ensures IsPath(rel, rest, leaf) ==> IsPath(rel, [hop] + rest, leaf)
  {
    var path := [hop] + rest;
    AtCons(hop, rest, leaf);
    if IsPath(rel, rest, leaf) {
      forall i | 0 <= i <= |path| ensures Good(rel, At(path, leaf, i)) { assert i > 0 ==> Good(rel, At(rest, leaf, i - 1)); }
      forall i | 0 <= i < |path| ensures IsHop(rel, path, leaf, i) { assert i > 0 ==> IsHop(rel, rest, leaf, i - 1) && path[i] == rest[i - 1]; }
    }
  }

  lemma PathCons(rel: seq<Page>, levels: seq<seq<nat>>, h: nat, hop: Hop, rest: seq<Hop>, leaf: nat, k: Key)
    requires Good(rel, hop.b) && !rel[hop.b].leaf && rel[hop.b].Data(hop.off) && rel[hop.b].Down(hop.off) == At(rest, leaf, 0)
    requires h < |levels| && hop.b in levels[h] && Taken(rel, hop, k)
    ensures Descends(rel, levels, h + 1, rest, leaf, k) ==> Descends(rel, levels, h, [hop] + rest, leaf, k)
  {
    if Descends(rel, levels, h + 1, rest, leaf, k) {
      var path := [hop] + rest;
      IsPathCons(rel, hop, rest, leaf);
      AtCons(hop, rest, leaf);
      forall i | 0 <= i <= |path| ensures At(path, leaf, i) in levels[h + i] {
        assert i > 0 ==> At(rest, leaf, i - 1) in levels[h + 1 + (i - 1)];
      }
      forall i | 0 <= i < |path| ensures Taken(rel, path[i], k) { assert i > 0 ==> path[i] == rest[i - 1]; }
    }
  }

  lemma SearchStep(rel: seq<Page>, root: nat, top: nat, levels: seq<seq<nat>>, h: nat, b: nat, k: Key) returns (off: nat, c: nat)
    requires SettledTree(rel, root, top, levels) && h < top && b in levels[h] && b < |rel| && Under(rel, b, k)
    ensures !rel[b].leaf && Taken(rel, Hop(b, off), k) && rel[b].Down(off) == c
    ensures c in levels[h + 1] && Good(rel, c) && Under(rel, c, k)
  {
    TreeGood(rel, root, top, levels, h, b);
    ChosenBelow(rel[b], k, |rel[b].items|);
    off := Choose(rel[b], k, |rel[b].items|);
    c := rel[b].Down(off);
    ChildBelow(rel, root, top, levels, h, b, off);
    TreeGood(rel, root, top, levels, h + 1, c);
    ChosenKeepsUnder(rel, b, k, off);
  }

  /** From a page that k belongs to, a search goes down the slots it takes, to a leaf that k belongs to. */
  lemma {:induction false} SearchPath(rel: seq<Page>, root: nat, top: nat, levels: seq<seq<nat>>, h: nat, b: nat, k: Key)
    returns (path: seq<Hop>, leaf: nat)
    requires SettledTree(rel, root, top, levels) && h <= top && b in levels[h] && b < |rel| && Under(rel, b, k)
    ensures Descends(rel, levels, h, path, leaf, k) && |path| == top - h && At(path, leaf, 0) == b
    ensures Under(rel, leaf, k) && rel[leaf].leaf
    decreases top - h
  {
    TreeGood(rel, root, top, levels, h, b);
    if h == top { return [], b; }
    var off, c := SearchStep(rel, root, top, levels, h, b, k);
    var rest;
    rest, leaf := SearchPath(rel, root, top, levels, h + 1, c, k);
    PathCons(rel, levels, h, Hop(b, off), rest, leaf, k);
    path := [Hop(b, off)] + rest;
  }

  lemma LandsAbove(rel: seq<Page>, b: nat, k: Key, c: nat, h: nat, leaf: nat)
    requires b < |rel| && !rel[b].leaf && rel[b].Data(rel[b].FirstData()) && ChildFor(rel[b], k) == c && Good(rel, c) && Under(rel, c, k)
    ensures Lands(rel, c, k, h, leaf) ==> Lands(rel, b, k, h + 1, leaf)
  {
    StaysOn(rel, c, k);
  }

  lemma HopLands(rel: seq<Page>, path: seq<Hop>, leaf: nat, k: Key, i: nat)
    requires IsPath(rel, path, leaf) && SearchTakes(rel, path, k) && Under(rel, leaf, k) && i < |path|
    ensures Lands(rel, At(path, leaf, i + 1), k, |path| - (i + 1), leaf) ==> Lands(rel, At(path, leaf, i), k, |path| - i, leaf)
  {
    assert IsHop(rel, path, leaf, i) && Taken(rel, path[i], k) && Good(rel, At(path, leaf, i + 1));
    UnderPath(rel, path, leaf, k, i + 1);
    LandsAbove(rel, path[i].b, k, At(path, leaf, i + 1), |path| - (i + 1), leaf);
  }

  /** A search that takes the slots of a path ends where the path does, without moving right on the way. */
  lemma {:induction false} TakenLands(rel: seq<Page>, path: seq<Hop>, leaf: nat, k: Key, i: nat)
    requires IsPath(rel, path, leaf) && SearchTakes(rel, path, k) && Under(rel, leaf, k) && i <= |path| && rel[leaf].leaf
    ensures Lands(rel, At(path, leaf, i), k, |path| - i, leaf)
    decreases |path| - i
  {
    if i < |path| {
      TakenLands(rel, path, leaf, k, i + 1);
      HopLands(rel, path, leaf, k, i);
    }
  }

  // ----------------------------------------------------------------- one path to every block

  /** No two slots of a level lead to the same child. */
  lemma SlotUnique(rel: seq<Page>, chain: seq<nat>, i: nat, off: nat, j: nat, o: nat)
    requires IsChain(rel, chain) && i <= j < |chain| && Live(rel, chain[i]) && Live(rel, chain[j]) && Distinct(LevelDowns(rel, chain))
    requires rel[chain[i]].Data(off) && rel[chain[j]].Data(o) && rel[chain[i]].Down(off) == rel[chain[j]].Down(o)
    ensures i == j && off == o
  {
    ChildPosition(rel, chain, i, off);
    ChildPosition(rel, chain, j, o);
    SamePosition(LevelDowns(rel, chain), Position(rel, chain, i, off), Position(rel, chain, j, o));
    if i < j { PositionsGrow(rel, chain, i, off, j, o); }
  }

  lemma SamePosition(s: seq<nat>, i: int, j: int)
    requires Distinct(s) && 0 <= i < |s| && 0 <= j < |s| && s[i] == s[j]
    ensures i == j
  {}

  lemma PositionsGrow(rel: seq<Page>, chain: seq<nat>, i: nat, off: nat, j: nat, o: nat)
    requires IsChain(rel, chain) && i < j < |chain| && Live(rel, chain[i]) && rel[chain[i]].Data(off) && rel[chain[j]].Data(o)
    ensures Position(rel, chain, i, off) < Position(rel, chain, j, o)
  {
    ChildPosition(rel, chain, i, off);
    LevelDownsGrow(rel, chain, i + 1, j);
  }

  lemma {:induction false} LevelDownsGrow(rel: seq<Page>, chain: seq<nat>, i: nat, j: nat)
    requires (forall n :: 0 <= n < |chain| ==> chain[n] < |rel|) && i <= j <= |chain|
    ensures |LevelDowns(rel, chain[..i])| <= |LevelDowns(rel, chain[..j])|
  {
    if i < j {
      LevelDownsGrow(rel, chain, i, j - 1);
      assert chain[..j][..j - 1] == chain[..j - 1];
    }
  }

  lemma ParentUnique(rel: seq<Page>, root: nat, top: nat, levels: seq<seq<nat>>, h: nat, one: Hop, two: Hop)
    requires SettledTree(rel, root, top, levels) && h < top && one.b in levels[h] && two.b in levels[h]
    requires one.b < |rel| && two.b < |rel| && rel[one.b].Data(one.off) && rel[two.b].Data(two.off)
    requires rel[one.b].Down(one.off) == rel[two.b].Down(two.off)
    ensures one == two
  {
    ChildLevelIsDownlinks(rel, root, top, levels, h);
    var i :| 0 <= i < |levels[h]| && levels[h][i] == one.b;
    var j :| 0 <= j < |levels[h]| && levels[h][j] == two.b;
    assert SettledAt(rel, levels[h][i], h == 0) && SettledAt(rel, levels[h][j], h == 0);
    if i <= j { SlotUnique(rel, levels[h], i, one.off, j, two.off); } else { SlotUnique(rel, levels[h], j, two.off, i, one.off); }
  }

  /** A path from the top level to block b. */
  ghost predicate TreePath(rel: seq<Page>, levels: seq<seq<nat>>, path: seq<Hop>, b: nat) {
    IsPath(rel, path, b) && OnLevels(levels, 0, path, b)
  }

  /** A path without its last hop. */
  lemma PathFront(rel: seq<Page>, levels: seq<seq<nat>>, path: seq<Hop>, n: nat, b: nat)
    requires |path| == n + 1
    ensures TreePath(rel, levels, path, b) ==> TreePath(rel, levels, path[..n], path[n].b)
    ensures TreePath(rel, levels, path, b) ==> IsHop(rel, path, b, n) && n < |levels| && path[n].b in levels[n]
  {
    if TreePath(rel, levels, path, b) {
      var front := path[..n];
      assert At(path, b, n) in levels[0 + n] && IsHop(rel, path, b, n);
      forall i | 0 <= i <= n ensures Good(rel, At(front, path[n].b, i)) && At(front, path[n].b, i) in levels[0 + i] {
        assert At(front, path[n].b, i) == At(path, b, i) && Good(rel, At(path, b, i)) && At(path, b, i) in levels[0 + i];
      }
      forall i | 0 <= i < n ensures IsHop(rel, front, path[n].b, i) {
        assert IsHop(rel, path, b, i) && At(front, path[n].b, i + 1) == At(path, b, i + 1);
      }
    }
  }

  lemma {:induction false} PathUnique(rel: seq<Page>, root: nat, top: nat, levels: seq<seq<nat>>, b: nat, one: seq<Hop>, two: seq<Hop>)
    requires SettledTree(rel, root, top, levels) && |one| == |two|
    ensures TreePath(rel, levels, one, b) && TreePath(rel, levels, two, b) ==> one == two
    decreases |one|
  {
    if TreePath(rel, levels, one, b) && TreePath(rel, levels, two, b) && one != [] {
      var n := |one| - 1;
      PathFront(rel, levels, one, n, b);
      PathFront(rel, levels, two, n, b);
      ParentUnique(rel, root, top, levels, n, one[n], two[n]);
      PathUnique(rel, root, top, levels, one[n].b, one[..n], two[..n]);
      assert one == one[..n] + [one[n]] && two == two[..n] + [two[n]];
    }
  }

  // ----------------------------------------------------------------- the top level

  /** k is above the high keys of the pages of the chain left of position i. */
  ghost predicate RightOfFirst(rel: seq<Page>, chain: seq<nat>, i: nat, k: Key)
    requires i <= |chain|
  {
    forall j :: 0 <= j < i ==> Passed(rel, chain[j], k)
  }

  lemma MovesAlong(rel: seq<Page>, chain: seq<nat>, i: nat, k: Key)
    requires IsChain(rel, chain) && i < |chain| && RightOfFirst(rel, chain, i, k) && Good(rel, chain[i]) && Under(rel, chain[i], k)
    ensures MovesTo(rel, chain[0], k, i, chain[i])
  {
    ChainIsRight(rel, chain, i);
    StaysOn(rel, chain[i], k);
    forall m: nat | m < i ensures Passed(rel, RightOf(rel, chain[0], m), k) { ChainIsRight(rel, chain, m); }
  }

  lemma StopsBy(rel: seq<Page>, b: nat, k: Key, n: nat, c: nat, m: nat)
    requires MovesTo(rel, b, k, n, c) && !Passed(rel, RightOf(rel, b, m), k)
    ensures n <= m
  {}

  /** The walk to the right stays on the chain. */
  lemma MovesOnChain(rel: seq<Page>, chain: seq<nat>, n: nat, c: nat, k: Key)
    requires IsChain(rel, chain) && chain != [] && rel[Last(chain)].next == 0 && MovesTo(rel, chain[0], k, n, c)
    ensures n < |chain| && c == chain[n] && RightOfFirst(rel, chain, n, k) && Under(rel, c, k)
  {
    ChainIsRight(rel, chain, |chain| - 1);
    StopsBy(rel, chain[0], k, n, c, |chain| - 1);
    ChainIsRight(rel, chain, n);
    forall j | 0 <= j < n ensures Passed(rel, chain[j], k) {
      ChainIsRight(rel, chain, j);
      assert Passed(rel, RightOf(rel, chain[0], j), k);
    }
    if rel[c].HasHigh() { NotLess(rel[c].High(), k); }
  }

  /** Some page of the top level is the one that k belongs to. */
  lemma {:induction false} TopStops(rel: seq<Page>, chain: seq<nat>, k: Key, n: nat) returns (i: nat)
    requires IsChain(rel, chain) && n < |chain| && rel[Last(chain)].next == 0 && RightOfFirst(rel, chain, n, k)
    requires forall j :: 0 <= j < |chain| ==> Live(rel, chain[j])
    ensures i < |chain| && RightOfFirst(rel, chain, i, k) && Under(rel, chain[i], k)
    decreases |chain| - n
  {
    assert Block(rel, chain[n]) && Live(rel, chain[n]);
    if Passed(rel, chain[n], k) {
      i := TopStops(rel, chain, k, n + 1);
    } else {
      i := n;
      if rel[chain[n]].HasHigh() { NotLess(rel[chain[n]].High(), k); }
    }
  }

  // ----------------------------------------------------------------- what is found

  /** In a settled accepted tree every search ends at a leaf. */
  lemma SearchAlwaysEnds(rel: seq<Page>, root: nat, top: nat, levels: seq<seq<nat>>, k: Key) returns (leaf: nat)
    requires SettledTree(rel, root, top, levels)
    ensures leaf in levels[top] && SearchEnds(rel, root, k, top, leaf)
  {
    assert LevelOk(rel, levels[0], top - 0);
    forall j | 0 <= j < |levels[0]| ensures Live(rel, levels[0][j]) { assert SettledAt(rel, levels[0][j], 0 == 0); }
    var i := TopStops(rel, levels[0], k, 0);
    TreeGood(rel, root, top, levels, 0, levels[0][i]);
    MovesAlong(rel, levels[0], i, k);
    var path;
    path, leaf := SearchPath(rel, root, top, levels, 0, levels[0][i], k);
    TakenLands(rel, path, leaf, k, 0);
    assert At(path, leaf, |path|) in levels[0 + |path|];
  }

  /** If a search for k ends at a leaf, it took the slots of the leaf's path. */
  lemma FoundTakes(rel: seq<Page>, root: nat, top: nat, levels: seq<seq<nat>>, path: seq<Hop>, leaf: nat, k: Key) returns (i: nat)
    requires SettledTree(rel, root, top, levels) && IsPath(rel, path, leaf) && |path| == top && OnLevels(levels, 0, path, leaf)
    requires SearchEnds(rel, root, k, top, leaf)
    ensures i < |levels[0]| && levels[0][i] == At(path, leaf, 0) && RightOfFirst(rel, levels[0], i, k) && SearchTakes(rel, path, k)
  {
    var n: nat, c: nat :| MovesTo(rel, root, k, n, c) && Lands(rel, c, k, top, leaf);
    assert LevelOk(rel, levels[0], top - 0);
    MovesOnChain(rel, levels[0], n, c, k);
    var taken, end := SearchPath(rel, root, top, levels, 0, c, k);
    TakenLands(rel, taken, end, k, 0);
    SearchEndsOnce(rel, root, k, top, leaf, end);
    PathUnique(rel, root, top, levels, leaf, path, taken);
    i := n;
  }

  /**
   Every item of every leaf of a settled accepted tree has one path from the top level.  A search
   for the item from the root ends at its leaf if and only if the item is above the high keys of
   the top pages left of the path and above the pivots of the path, the last one excepted.
   */
  lemma ItemFound(rel: seq<Page>, root: nat, top: nat, levels: seq<seq<nat>>, leaf: nat, o: nat) returns (path: seq<Hop>, i: nat)
    requires SettledTree(rel, root, top, levels) && leaf in levels[top] && leaf < |rel| && rel[leaf].Real(o)
    ensures IsPath(rel, path, leaf) && |path| == top && OnLevels(levels, 0, path, leaf)
    ensures i < |levels[0]| && levels[0][i] == At(path, leaf, 0)
    ensures SearchEnds(rel, root, rel[leaf].Key(o), top, leaf) <==>
      RightOfFirst(rel, levels[0], i, rel[leaf].Key(o)) && AboveAncestors(rel, path, rel[leaf].Key(o))
  {
    var k := rel[leaf].Key(o);
    path := EveryBlockHasPath(rel, root, top, levels, top, leaf);
    assert At(path, leaf, 0) in levels[0 + 0];
    i :| 0 <= i < |levels[0]| && levels[0][i] == At(path, leaf, 0);
    TakenIffAboveAncestors(rel, path, leaf, o);
    if SearchEnds(rel, root, k, top, leaf) {
      var n := FoundTakes(rel, root, top, levels, path, leaf, k);
      assert LevelOk(rel, levels[0], top - 0);
      EndedChainDistinct(rel, levels[0]);
    }
    if RightOfFirst(rel, levels[0], i, k) && AboveAncestors(rel, path, k) { AboveFound(rel, root, top, levels, path, leaf, o, i); }
  }

  lemma AboveFound(rel: seq<Page>, root: nat, top: nat, levels: seq<seq<nat>>, path: seq<Hop>, leaf: nat, o: nat, i: nat)
    requires SettledTree(rel, root, top, levels) && leaf in levels[top] && leaf < |rel| && rel[leaf].Real(o)
    requires IsPath(rel, path, leaf) && |path| == top && i < |levels[0]| && levels[0][i] == At(path, leaf, 0)
    requires RightOfFirst(rel, levels[0], i, rel[leaf].Key(o)) && SearchTakes(rel, path, rel[leaf].Key(o))
    ensures SearchEnds(rel, root, rel[leaf].Key(o), top, leaf)
  {
    var k := rel[leaf].Key(o);
    TreeGood(rel, root, top, levels, top, leaf);
    assert ItemAccepts(rel, rel[leaf], o);
    UnderPath(rel, path, leaf, k, 0);
    assert Good(rel, At(path, leaf, 0)) && LevelOk(rel, levels[0], top - 0);
    MovesAlong(rel, levels[0], i, k);
    TakenLands(rel, path, leaf, k, 0);
  }
}
