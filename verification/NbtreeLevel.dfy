/**
 The walk along one level and the walk over all levels of verify_nbtree.c, readonly, with the exact
 condition for each of their three outcomes.
 */
module NbtreeLevel {
  import opened NbtreeKey
  import opened NbtreePage
  import opened NbtreeCheck
  import opened Optional

  /** BtreeLevel */
  datatype Level = Level(level: nat, leftmost: nat, isTrueRoot: bool)

  // ------------------------------------------------------- what a round of the loop depends on

  predicate Live(rel: seq<Page>, b: nat) {
    b < |rel| && !rel[b].Ignore()
  }

  /** The last live block among the first n of the level. */
  ghost function Latest(rel: seq<Page>, leftmost: nat, n: nat): (r: Option<nat>)
    ensures r.Some? ==> r.value < |rel|
  {
    if n == 0 then None
    else
      var b := RightOf(rel, leftmost, n - 1);
      if Live(rel, b) then Some(b) else Latest(rel, leftmost, n - 1)
  }

  /** Where the walk along the child level stands before round n. */
  ghost function WalkBefore(rel: seq<Page>, v: Level, n: nat): Walk {
    var latest := Latest(rel, v.leftmost, n);
    if v.level == 0 || latest.None? then START else AfterPage(rel, rel[latest.value], START)
  }

  ghost function LeftBefore(rel: seq<Page>, v: Level, n: nat): nat {
    if n == 0 then 0 else RightOf(rel, v.leftmost, n - 1)
  }

  /** The high key of the page before round n. */
  ghost function LowkeyBefore(rel: seq<Page>, v: Level, n: nat): Option<Key> {
    if n == 0 then None
    else
      var b := RightOf(rel, v.leftmost, n - 1);
      if b < |rel| && rel[b].HasHigh() then Some(rel[b].High()) else None
  }

  /** The checks on a live page before its items are looked at; the first live page is at the left edge. */
  ghost predicate InPlace(rel: seq<Page>, v: Level, b: nat, left: nat, first: bool)
    requires b < |rel|
  {
    (first ==> LeftEdge(rel, b) && (v.isTrueRoot ==> rel[b].root || rel[b].incomplete)) &&
    (left != 0 ==> rel[b].prev == left) && rel[b].level == v.level
  }

  ghost predicate InPlaceAt(rel: seq<Page>, v: Level, n: nat)
    requires RightOf(rel, v.leftmost, n) < |rel|
  {
    InPlace(rel, v, RightOf(rel, v.leftmost, n), LeftBefore(rel, v, n), Latest(rel, v.leftmost, n).None?)
  }

  ghost predicate ItemsAcceptAt(rel: seq<Page>, v: Level, n: nat)
    requires RightOf(rel, v.leftmost, n) < |rel|
  {
    PageAccepts(rel, rel[RightOf(rel, v.leftmost, n)], LowkeyBefore(rel, v, n), WalkBefore(rel, v, n))
  }

  ghost predicate ItemsDivergeAt(rel: seq<Page>, v: Level, n: nat)
    requires RightOf(rel, v.leftmost, n) < |rel|
  {
    PageDiverges(rel, rel[RightOf(rel, v.leftmost, n)], LowkeyBefore(rel, v, n), WalkBefore(rel, v, n))
  }

  /** Round n passes: half-dead pages are passed over, live ones checked. */
  ghost predicate RoundAccepts(rel: seq<Page>, v: Level, n: nat) {
    var b := RightOf(rel, v.leftmost, n);
    Block(rel, b) &&
    (if rel[b].Ignore() then !rel[b].deleted && !rel[b].Rightmost() else InPlaceAt(rel, v, n) && ItemsAcceptAt(rel, v, n)) &&
    b != LeftBefore(rel, v, n) && b != rel[b].prev
  }

  ghost predicate RoundDiverges(rel: seq<Page>, v: Level, n: nat) {
    var b := RightOf(rel, v.leftmost, n);
    Block(rel, b) && !rel[b].Ignore() && InPlaceAt(rel, v, n) && ItemsDivergeAt(rel, v, n)
  }

  ghost predicate RoundsBefore(rel: seq<Page>, v: Level, n: nat) {
    forall m: nat :: m < n ==> RoundAccepts(rel, v, m)
  }

  /** The walk reaches the right edge in round n. */
  ghost predicate LevelEnds(rel: seq<Page>, v: Level, n: nat) {
    RoundsBefore(rel, v, n) && RoundAccepts(rel, v, n) && rel[RightOf(rel, v.leftmost, n)].next == 0
  }

  ghost predicate LevelAccepts(rel: seq<Page>, v: Level) {
    exists n: nat :: LevelEnds(rel, v, n)
  }

  /** Some page is checked for ever, or the walk goes on for ever. */
  ghost predicate LevelDiverges(rel: seq<Page>, v: Level) {
    (exists n: nat :: RoundsBefore(rel, v, n) && RoundDiverges(rel, v, n)) || forall n: nat :: RoundAccepts(rel, v, n)
  }

  // ------------------------------------------------------------------ rounds that repeat

  /** Once around a circle of right links, the last live block is the same again. */
  lemma {:induction false} LatestOnCircle(rel: seq<Page>, b: nat, i: nat, j: nat, k: nat)
    requires i < j && RightOf(rel, b, i) == RightOf(rel, b, j)
    ensures
      || Latest(rel, b, j + k) == Latest(rel, b, i + k)
      || (Latest(rel, b, i + k) == Latest(rel, b, i) && Latest(rel, b, j + k) == Latest(rel, b, j))
  {
    if k > 0 {
      LatestOnCircle(rel, b, i, j, k - 1);
      RightShift(rel, b, i, j, k - 1);
      assert i + k - 1 == i + (k - 1) && j + k - 1 == j + (k - 1);
    }
  }

  lemma {:induction false} LatestRepeats(rel: seq<Page>, b: nat, i: nat, j: nat, n: nat)
    requires i < j <= n && RightOf(rel, b, i) == RightOf(rel, b, j)
    ensures Latest(rel, b, n + (j - i)) == Latest(rel, b, n)
  {
    if n == j {
      LatestOnCircle(rel, b, i, j, j - i);
      assert i + (j - i) == j;
    } else {
      LatestRepeats(rel, b, i, j, n - 1);
      RightShift(rel, b, i, j, n - 1 - i);
      assert i + (n - 1 - i) == n - 1 && j + (n - 1 - i) == n + (j - i) - 1;
    }
  }

  /** What round n does depends on no more than this. */
  lemma SameRound(rel: seq<Page>, v: Level, m: nat, n: nat)
    requires m > 0 && n > 0 && RightOf(rel, v.leftmost, m) == RightOf(rel, v.leftmost, n)
    requires RightOf(rel, v.leftmost, m - 1) == RightOf(rel, v.leftmost, n - 1)
    requires Latest(rel, v.leftmost, m) == Latest(rel, v.leftmost, n)
    ensures RoundAccepts(rel, v, m) <==> RoundAccepts(rel, v, n)
  {
    assert LowkeyBefore(rel, v, m) == LowkeyBefore(rel, v, n) && WalkBefore(rel, v, m) == WalkBefore(rel, v, n);
  }

  lemma {:induction false} RoundsRepeat(rel: seq<Page>, v: Level, i: nat, j: nat, n: nat)
    requires i < j <= |rel| && RightOf(rel, v.leftmost, i) == RightOf(rel, v.leftmost, j)
    requires RoundsBefore(rel, v, 2 * |rel| + 1)
    ensures RoundAccepts(rel, v, n)
  {
    if n > 2 * |rel| {
      var k := n - (j - i);
      RoundsRepeat(rel, v, i, j, k);
      LatestRepeats(rel, v.leftmost, i, j, k);
      RightShift(rel, v.leftmost, i, j, n - j);
      RightShift(rel, v.leftmost, i, j, n - 1 - j);
      assert i + (n - j) == k && i + (n - 1 - j) == k - 1 && j + (n - j) == n && j + (n - 1 - j) == n - 1;
      SameRound(rel, v, k, n);
    }
  }

  /** A level walk over twice as many blocks as the relation has never ends. */
  lemma LongLevelDiverges(rel: seq<Page>, v: Level)
    requires RoundsBefore(rel, v, 2 * |rel| + 1)
    ensures forall n: nat :: RoundAccepts(rel, v, n)
  {
    forall m: nat | m <= |rel| ensures RightOf(rel, v.leftmost, m) < |rel| { assert RoundAccepts(rel, v, m); }
    var i, j := RightRepeats(rel, v.leftmost);
    forall n: nat ensures RoundAccepts(rel, v, n) { RoundsRepeat(rel, v, i, j, n); }
  }

  // ------------------------------------------------------------------ one level

  lemma RoundExclusive(rel: seq<Page>, v: Level, n: nat)
    ensures !(RoundAccepts(rel, v, n) && RoundDiverges(rel, v, n))
  {
    if RoundAccepts(rel, v, n) && RoundDiverges(rel, v, n) {
      var p := rel[RightOf(rel, v.leftmost, n)];
      PagePasses(rel, p, LowkeyBefore(rel, v, n), WalkBefore(rel, v, n));
      LegExclusive(rel, LastLeg(rel, p, LowkeyBefore(rel, v, n), WalkBefore(rel, v, n)));
    }
  }

  lemma NothingAfterEnd(rel: seq<Page>, v: Level, n: nat)
    requires LevelEnds(rel, v, n)
    ensures RightOf(rel, v.leftmost, n + 1) == 0 && !RoundAccepts(rel, v, n + 1)
    ensures forall m: nat :: m <= n ==> RoundAccepts(rel, v, m)
  {}

  lemma NoEnd(rel: seq<Page>, v: Level, n: nat, k: nat)
    requires (k + 1 < n ==> RoundAccepts(rel, v, k + 1)) && !RoundAccepts(rel, v, n) && (n > 0 ==> RightOf(rel, v.leftmost, n) != 0)
    ensures !LevelEnds(rel, v, k)
  {
    if LevelEnds(rel, v, k) { NothingAfterEnd(rel, v, k); }
  }

  /** A walk that fails in round n is not accepted, and never ends only if the round does not. */
  lemma LevelFails(rel: seq<Page>, v: Level, n: nat)
    requires RoundsBefore(rel, v, n) && !RoundAccepts(rel, v, n) && (n > 0 ==> RightOf(rel, v.leftmost, n) != 0)
    ensures !LevelAccepts(rel, v)
    ensures LevelDiverges(rel, v) <==> RoundDiverges(rel, v, n)
  {
    forall k: nat | RoundsBefore(rel, v, k) && RoundDiverges(rel, v, k) ensures k == n {
      RoundExclusive(rel, v, k);
      assert k < n ==> RoundAccepts(rel, v, k);
    }
    forall k: nat ensures !LevelEnds(rel, v, k) { NoEnd(rel, v, n, k); }
  }

  lemma EndsOnce(rel: seq<Page>, v: Level, n: nat, k: nat)
    requires LevelEnds(rel, v, n) && LevelEnds(rel, v, k)
    ensures n == k
  {
    NothingAfterEnd(rel, v, n);
    NothingAfterEnd(rel, v, k);
  }

  /** A walk that reaches the right edge does not go on for ever. */
  lemma LevelSucceeds(rel: seq<Page>, v: Level, n: nat)
    requires LevelEnds(rel, v, n)
    ensures !LevelDiverges(rel, v)
    ensures forall k: nat :: LevelEnds(rel, v, k) ==> k == n
  {
    NothingAfterEnd(rel, v, n);
    forall k: nat ensures !(RoundsBefore(rel, v, k) && RoundDiverges(rel, v, k)) {
      RoundExclusive(rel, v, k);
      assert k <= n ==> RoundAccepts(rel, v, k);
    }
    forall k: nat | LevelEnds(rel, v, k) ensures k == n { EndsOnce(rel, v, n, k); }
  }

  lemma LongLevelNotAccepted(rel: seq<Page>, v: Level)
    requires forall n: nat :: RoundAccepts(rel, v, n)
    ensures !LevelAccepts(rel, v)
  {
    forall k: nat ensures !LevelEnds(rel, v, k) { assert RoundAccepts(rel, v, k + 1); }
  }

  /** The first downlink of an internal page; 0 for a leaf. */
  function FirstDown(p: Page): nat {
    if !p.leaf && p.Data(p.FirstData()) then p.Down(p.FirstData()) else 0
  }

  /** The start of the next level: the first downlink of the first live page among the first n. */
  ghost function StartBelow(rel: seq<Page>, leftmost: nat, n: nat): Option<nat> {
    if n == 0 then None
    else
      var sofar, b := StartBelow(rel, leftmost, n - 1), RightOf(rel, leftmost, n - 1);
      if sofar.None? && Live(rel, b) then Some(FirstDown(rel[b])) else sofar
  }

  lemma {:induction false} BelowIffLatest(rel: seq<Page>, leftmost: nat, n: nat)
    ensures StartBelow(rel, leftmost, n).None? <==> Latest(rel, leftmost, n).None?
  {
    if n > 0 { BelowIffLatest(rel, leftmost, n - 1); }
  }

  /** The part of the level loop that deals with a live page. */
  method VisitLive(c: Checker, v: Level, current: nat, leftcurrent: nat, first: bool, lowkey: Option<Key>) returns (res: Outcome)
    requires Block(c.rel, current) && !c.rel[current].Ignore()
    modifies c
    ensures res.Accepted? <==> InPlace(c.rel, v, current, leftcurrent, first) && PageAccepts(c.rel, c.rel[current], lowkey, old(c.State()))
    ensures res.Runaway? <==> InPlace(c.rel, v, current, leftcurrent, first) && PageDiverges(c.rel, c.rel[current], lowkey, old(c.State()))
    ensures res.Accepted? ==> c.State() == AfterPage(c.rel, c.rel[current], old(c.State()))
  {
    var page := c.rel[current];
    if first {
      var edge := LeftmostIgnoringHalfDead(c.rel, current);
      if edge != Some(true) { return Corrupt; }
      if v.isTrueRoot && !page.root && !page.incomplete { return Corrupt; }
    }
    if page.prev != leftcurrent && leftcurrent != 0 { return Corrupt; }
    if v.level != page.level { return Corrupt; }
    res := c.TargetPageCheck(page, lowkey);
  }

  /** The variables of the level loop before round n. */
  ghost predicate BeforeRound(rel: seq<Page>, v: Level, n: nat, w: Walk, current: nat, leftcurrent: nat, lowkey: Option<Key>,
                              below: Option<nat>) {
    current == RightOf(rel, v.leftmost, n) && leftcurrent == LeftBefore(rel, v, n) && lowkey == LowkeyBefore(rel, v, n) &&
    below == StartBelow(rel, v.leftmost, n) && w == WalkBefore(rel, v, n)
  }

  /** One round of the level loop: skip an ignorable page, or check a live one. */
  method OnePage(c: Checker, v: Level, current: nat, leftcurrent: nat, lowkey: Option<Key>, below0: Option<nat>, ghost n: nat)
    returns (res: Outcome, below: Option<nat>)
    requires BeforeRound(c.rel, v, n, c.State(), current, leftcurrent, lowkey, below0)
    modifies c
    ensures res.Accepted? <==> RoundAccepts(c.rel, v, n)
    ensures res.Runaway? <==> RoundDiverges(c.rel, v, n)
    ensures res.Accepted? ==> c.State() == WalkBefore(c.rel, v, n + 1) && below == StartBelow(c.rel, v.leftmost, n + 1)
  {
    below := below0;
    BelowIffLatest(c.rel, v.leftmost, n);
    if !Block(c.rel, current) { return Corrupt, below; }
    var page := c.rel[current];
    RoundExclusive(c.rel, v, n);
    if page.Ignore() {
      if page.deleted || page.Rightmost() { return Corrupt, below; }
    } else {
      res := VisitLive(c, v, current, leftcurrent, below.None?, lowkey);
      if !res.Accepted? { return; }
      if below.None? { below := Some(if page.leaf then 0 else page.Down(page.FirstData())); }
    }
    if current == leftcurrent || current == page.prev { return Corrupt, below; }
    return Accepted, below;
  }

  /**
   bt_check_level_from_leftmost, with the three outcomes decided exactly.  `below` is the leftmost
   block of the next level, 0 after the leaves.
   */
  method CheckLevel(rel: seq<Page>, v: Level) returns (res: Outcome, below: Option<nat>)
    ensures res.Accepted? <==> LevelAccepts(rel, v)
    ensures res.Runaway? <==> LevelDiverges(rel, v)
    ensures res.Accepted? ==> below.Some? && forall n: nat :: LevelEnds(rel, v, n) ==> below == StartBelow(rel, v.leftmost, n + 1)
  {
    var c := new Checker(rel);
    var leftcurrent, current := 0, v.leftmost;
    var lowkey: Option<Key> := None;
    below := None;
    var rounds: nat := 0;
    while true
      invariant fresh(c) && c.rel == rel && BeforeRound(rel, v, rounds, c.State(), current, leftcurrent, lowkey, below)
      invariant RoundsBefore(rel, v, rounds) && (rounds > 0 ==> current != 0) && rounds <= 2 * |rel| + 1
      decreases 2 * |rel| + 1 - rounds
    {
      if rounds > 2 * |rel| {
        LongLevelDiverges(rel, v);
        LongLevelNotAccepted(rel, v);
        return Runaway, below;
      }
      res, below := OnePage(c, v, current, leftcurrent, lowkey, below, rounds);
      if !res.Accepted? {
        LevelFails(rel, v, rounds);
        return;
      }
      var page := rel[current];
      if page.next == 0 { break; }
      leftcurrent, current, lowkey, rounds := current, page.next, Some(page.High()), rounds + 1;
    }
    assert LevelEnds(rel, v, rounds);
    LevelSucceeds(rel, v, rounds);
    BelowIffLatest(rel, v.leftmost, rounds + 1);
    return Accepted, below;
  }

  // ------------------------------------------------------------------ all levels

  /** The walk over the levels from the one that v starts is accepted. */
  ghost predicate IndexAccepts(rel: seq<Page>, v: Level)
    decreases v.level
  {
    v.leftmost == 0 || exists n: nat :: LevelEnds(rel, v, n) && (v.level > 0 ==> IndexAccepts(rel, NextLevel(rel, v, n)))
  }

  ghost predicate IndexDiverges(rel: seq<Page>, v: Level)
    decreases v.level
  {
    v.leftmost != 0 &&
    (LevelDiverges(rel, v) || (v.level > 0 && exists n: nat :: LevelEnds(rel, v, n) && IndexDiverges(rel, NextLevel(rel, v, n))))
  }

  ghost function NextLevel(rel: seq<Page>, v: Level, n: nat): Level
    requires v.level > 0
  {
    var below := StartBelow(rel, v.leftmost, n + 1);
    Level(v.level - 1, if below.Some? then below.value else 0, false)
  }

  lemma {:induction false} LeavesEnd(rel: seq<Page>, v: Level, n: nat)
    requires RoundsBefore(rel, v, n) && v.level == 0
    ensures StartBelow(rel, v.leftmost, n).Some? ==> StartBelow(rel, v.leftmost, n).value == 0
  {
    if n > 0 {
      LeavesEnd(rel, v, n - 1);
      assert RoundAccepts(rel, v, n - 1);
    }
  }

  /** An accepted level leaves the verdict to the levels below it. */
  lemma IndexStep(rel: seq<Page>, v: Level, below: nat, next: Level)
    requires v.leftmost != 0 && LevelAccepts(rel, v)
    requires forall n: nat :: LevelEnds(rel, v, n) ==> StartBelow(rel, v.leftmost, n + 1) == Some(below)
    requires next == Level(if v.level > 0 then v.level - 1 else 0, below, false)
    ensures IndexAccepts(rel, v) <==> IndexAccepts(rel, next)
    ensures IndexDiverges(rel, v) <==> IndexDiverges(rel, next)
    ensures v.level == 0 ==> below == 0
  {
    var n: nat :| LevelEnds(rel, v, n);
    LevelSucceeds(rel, v, n);
    if v.level == 0 { LeavesEnd(rel, v, n + 1); }
  }

  lemma IndexFails(rel: seq<Page>, v: Level)
    requires v.leftmost != 0 && !LevelAccepts(rel, v)
    ensures !IndexAccepts(rel, v)
    ensures IndexDiverges(rel, v) <==> LevelDiverges(rel, v)
  {}

  /**
   bt_check_every_level, from the root block and level that the metapage names, with the three
   outcomes decided exactly.
   */
  method CheckEveryLevel(rel: seq<Page>, root: nat, top: nat) returns (res: Outcome)
    ensures res.Accepted? <==> IndexAccepts(rel, Level(top, root, true))
    ensures res.Runaway? <==> IndexDiverges(rel, Level(top, root, true))
  {
    ghost var whole := Level(top, root, true);
    var current := Level(top, root, true);
    while current.leftmost != 0
      invariant IndexAccepts(rel, whole) <==> IndexAccepts(rel, current)
      invariant IndexDiverges(rel, whole) <==> IndexDiverges(rel, current)
      decreases current.leftmost != 0, current.level
    {
      var below;
      res, below := CheckLevel(rel, current);
      if !res.Accepted? {
        IndexFails(rel, current);
        return;
      }
      var next := Level(if current.level > 0 then current.level - 1 else 0, below.value, false);
      IndexStep(rel, current, below.value, next);
      current := next;
    }
    return Accepted;
  }
}
