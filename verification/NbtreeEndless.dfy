/**
 Why a check can run for ever: only along right links that go round in a circle, and only over
 pages that the checks excuse.
 */
module NbtreeEndless {
  import opened NbtreeKey
  import opened NbtreePage
  import opened NbtreeCheck
  import opened NbtreeLevel
  import opened Optional

  /** The right links from b go round in a circle. */
  ghost predicate Circle(rel: seq<Page>, b: nat) {
    forall n: nat :: Block(rel, RightOf(rel, b, n))
  }

  /** On a circle some block comes twice within the number of blocks of the relation. */
  lemma CircleReturns(rel: seq<Page>, b: nat) returns (i: nat, j: nat)
    requires Circle(rel, b)
    ensures i < j <= |rel| && RightOf(rel, b, i) == RightOf(rel, b, j)
  {
    forall n: nat | n <= |rel| ensures RightOf(rel, b, n) < |rel| { assert Block(rel, RightOf(rel, b, n)); }
    i, j := RightRepeats(rel, b);
  }

  /** A circle with a half-dead or deleted page on it. */
  ghost predicate DeadOnCircle(rel: seq<Page>, b: nat) {
    Circle(rel, b) && exists n: nat :: DeadAt(rel, b, n)
  }

  ghost predicate DeadAt(rel: seq<Page>, b: nat, n: nat) {
    Block(rel, RightOf(rel, b, n)) && rel[RightOf(rel, b, n)].Ignore()
  }

  /** Right of c there are only pages that may lack a downlink, round and round. */
  ghost predicate ExcusedCircle(rel: seq<Page>, c: nat) {
    forall n: nat :: ExcusedRight(rel, c, n)
  }

  ghost predicate ExcusedRight(rel: seq<Page>, c: nat, n: nat) {
    Block(rel, RightOf(rel, c, n + 1)) &&
    ExcusedNext(rel, RightOf(rel, c, n + 1), RightOf(rel, c, n) < |rel| && rel[RightOf(rel, c, n)].incomplete)
  }

  /** Such pages lie right of the child at `off` of block b. */
  ghost predicate ChildCircle(rel: seq<Page>, b: nat, off: nat) {
    b < |rel| && !rel[b].leaf && rel[b].Data(off) && ExcusedCircle(rel, rel[b].Down(off))
  }

  /** Such pages lie right of a child of the level that v starts. */
  ghost predicate UnlinkedCircle(rel: seq<Page>, v: Level) {
    exists n: nat, off: nat :: ChildCircle(rel, RightOf(rel, v.leftmost, n), off)
  }

  lemma {:induction false} RightFrom(rel: seq<Page>, b: nat, n: nat, m: nat)
    requires 0 < RightOf(rel, b, n) < |rel|
    ensures RightOf(rel, rel[RightOf(rel, b, n)].next, m) == RightOf(rel, b, n + m + 1)
  {
    if m > 0 { RightFrom(rel, b, n, m - 1); }
  }

  // ----------------------------------------------------------------- the walk along the children

  /** A leg without end follows a child, and passes over excused pages only. */
  lemma EndlessLeg(rel: seq<Page>, leg: Leg, c: nat)
    requires LegDiverges(rel, leg) && leg.walk == After(rel, c)
    ensures ExcusedCircle(rel, c)
  {
    assert StepsOver(rel, leg, 0);
    assert 0 < c < |rel| && leg.Start() == rel[c].next;
    forall n: nat ensures ExcusedRight(rel, c, n) {
      RightFrom(rel, c, 0, n);
      assert StepsOver(rel, leg, n);
      if n > 0 { RightFrom(rel, c, 0, n - 1); }
    }
  }

  lemma NoEndlessStart(rel: seq<Page>, leg: Leg)
    requires LegDiverges(rel, leg)
    ensures leg.walk.link.Some?
  {
    assert StepsOver(rel, leg, 0);
  }

  lemma {:induction false} LatestFrom(rel: seq<Page>, b: nat, n: nat) returns (m: nat)
    requires Latest(rel, b, n).Some?
    ensures m < n && Latest(rel, b, n) == Some(RightOf(rel, b, m))
  {
    if Live(rel, RightOf(rel, b, n - 1)) { m := n - 1; } else { m := LatestFrom(rel, b, n - 1); }
  }

  /** A leg without end on a page follows the page's last child so far, or that of the page before. */
  lemma EndlessSlot(rel: seq<Page>, v: Level, n: nat, lowkey: Option<Key>, off: Option<nat>, at: nat)
    requires RightOf(rel, v.leftmost, n) < |rel|
    requires var p := rel[RightOf(rel, v.leftmost, n)];
      !p.leaf && p.FirstData() <= at <= |p.items| + 1 && LegDiverges(rel, Leg(p, lowkey, off, WalkAt(rel, p, at, WalkBefore(rel, v, n))))
    ensures UnlinkedCircle(rel, v)
  {
    var p := rel[RightOf(rel, v.leftmost, n)];
    var leg := Leg(p, lowkey, off, WalkAt(rel, p, at, WalkBefore(rel, v, n)));
    NoEndlessStart(rel, leg);
    if at > p.FirstData() {
      EndlessLeg(rel, leg, p.Down(at - 1));
      assert ChildCircle(rel, RightOf(rel, v.leftmost, n), at - 1);
    } else {
      var m := LatestFrom(rel, v.leftmost, n);
      var q := rel[RightOf(rel, v.leftmost, m)];
      assert q.FirstData() < |q.items| + 1;
      EndlessLeg(rel, leg, q.Down(|q.items|));
      assert ChildCircle(rel, RightOf(rel, v.leftmost, m), |q.items|);
    }
  }

  // ----------------------------------------------------------------- the level

  /** As long as it passes live pages only, the walk along a level does not come back. */
  lemma {:induction false} NoReturnLive(rel: seq<Page>, v: Level, i: nat, j: nat)
    requires i < j && RoundsBefore(rel, v, j + 1) && forall n: nat :: n <= j ==> Live(rel, RightOf(rel, v.leftmost, n))
    ensures RightOf(rel, v.leftmost, i) != RightOf(rel, v.leftmost, j)
  {
    assert RoundAccepts(rel, v, i) && RoundAccepts(rel, v, j) && RoundAccepts(rel, v, j - 1);
    assert Live(rel, RightOf(rel, v.leftmost, i)) && Live(rel, RightOf(rel, v.leftmost, j)) && Live(rel, RightOf(rel, v.leftmost, j - 1));
    if i > 0 {
      assert RoundAccepts(rel, v, i - 1);
      NoReturnLive(rel, v, i - 1, j - 1);
    } else {
      LeftOfEdge(rel, v.leftmost);
    }
  }

  /** A level walk without end passes a half-dead page. */
  lemma EndlessRounds(rel: seq<Page>, v: Level)
    requires forall n: nat :: RoundAccepts(rel, v, n)
    ensures DeadOnCircle(rel, v.leftmost)
  {
    forall n: nat ensures Block(rel, RightOf(rel, v.leftmost, n)) { assert RoundAccepts(rel, v, n); }
    var i, j := CircleReturns(rel, v.leftmost);
    if forall n: nat :: n <= j ==> Live(rel, RightOf(rel, v.leftmost, n)) {
      NoReturnLive(rel, v, i, j);
    } else {
      var n: nat :| n <= j && !Live(rel, RightOf(rel, v.leftmost, n));
      assert Block(rel, RightOf(rel, v.leftmost, n)) && DeadAt(rel, v.leftmost, n);
    }
  }

  /** The search for a live right neighbour without end passes dead pages only. */
  lemma EndlessSkip(rel: seq<Page>, v: Level, n: nat)
    requires RoundsBefore(rel, v, n) && Block(rel, RightOf(rel, v.leftmost, n)) && SkipsForever(rel, rel[RightOf(rel, v.leftmost, n)])
    ensures DeadOnCircle(rel, v.leftmost)
  {
    forall m: nat ensures Block(rel, RightOf(rel, v.leftmost, m)) && (m == n + 1 ==> DeadAt(rel, v.leftmost, m)) {
      if m < n {
        assert RoundAccepts(rel, v, m);
      } else if m > n {
        RightFrom(rel, v.leftmost, n, m - n - 1);
        assert SkipsOver(rel, rel[RightOf(rel, v.leftmost, n)], m - n - 1);
      }
    }
    assert DeadAt(rel, v.leftmost, n + 1);
  }

  lemma EndlessPage(rel: seq<Page>, v: Level, n: nat)
    requires RoundsBefore(rel, v, n) && RoundDiverges(rel, v, n)
    ensures DeadOnCircle(rel, v.leftmost) || UnlinkedCircle(rel, v)
  {
    var p, lowkey, w := rel[RightOf(rel, v.leftmost, n)], LowkeyBefore(rel, v, n), WalkBefore(rel, v, n);
    if off: nat :| p.Data(off) && SlotDivergesIn(rel, p, lowkey, w, off) {
      if p.Real(off) && ItemDiverges(rel, p, off) {
        EndlessSkip(rel, v, n);
      } else {
        EndlessSlot(rel, v, n, lowkey, Some(off), off);
      }
    } else {
      EndlessSlot(rel, v, n, lowkey, None, |p.items| + 1);
    }
  }

  /**
   A level is checked for ever only if its right links go round in a circle with a half-dead or
   deleted page on it, or those of the level below do, over nothing but pages that may lack a
   downlink: half-dead or deleted, root, right of an unfinished split, top of an unfinished deletion.
   */
  lemma EndlessLevel(rel: seq<Page>, v: Level)
    requires LevelDiverges(rel, v)
    ensures DeadOnCircle(rel, v.leftmost) || UnlinkedCircle(rel, v)
  {
    if n: nat :| RoundsBefore(rel, v, n) && RoundDiverges(rel, v, n) {
      EndlessPage(rel, v, n);
    } else {
      EndlessRounds(rel, v);
    }
  }

  /** The walk over all levels comes to the level w. */
  ghost predicate ComesTo(rel: seq<Page>, v: Level, w: Level)
    decreases v.level
  {
    v == w || (v.level > 0 && exists n: nat :: LevelEnds(rel, v, n) && ComesTo(rel, NextLevel(rel, v, n), w))
  }

  /** A relation is checked for ever only if one of the levels that the walk comes to is. */
  lemma {:induction false} EndlessWhy(rel: seq<Page>, v: Level) returns (w: Level)
    requires IndexDiverges(rel, v)
    ensures ComesTo(rel, v, w) && w.leftmost != 0 && LevelDiverges(rel, w)
    ensures DeadOnCircle(rel, w.leftmost) || UnlinkedCircle(rel, w)
    decreases v.level
  {
    if LevelDiverges(rel, v) {
      EndlessLevel(rel, v);
      return v;
    }
    var n: nat :| LevelEnds(rel, v, n) && IndexDiverges(rel, NextLevel(rel, v, n));
    w := EndlessWhy(rel, NextLevel(rel, v, n));
  }

  /** Nothing on the level or right of a child of the level is excused from anything. */
  ghost predicate Quiet(rel: seq<Page>, v: Level) {
    (forall n: nat :: !DeadAt(rel, v.leftmost, n)) &&
    forall n: nat, off: nat :: QuietChild(rel, RightOf(rel, v.leftmost, n), off)
  }

  ghost predicate QuietChild(rel: seq<Page>, b: nat, off: nat) {
    b < |rel| && !rel[b].leaf && rel[b].Data(off) ==> forall m: nat :: Unexcused(rel, RightOf(rel, rel[b].Down(off), m))
  }

  /** Neither half-dead, deleted, a root, being split nor the top of an unfinished deletion. */
  ghost predicate Unexcused(rel: seq<Page>, b: nat) {
    b < |rel| ==> !rel[b].Ignore() && !rel[b].root && !rel[b].incomplete && !DeletionTop(rel, b, b)
  }

  /** Where the levels that the walk comes to are quiet, the checks end. */
  lemma QuietEnds(rel: seq<Page>, v: Level)
    requires forall w :: ComesTo(rel, v, w) ==> Quiet(rel, w)
    ensures !IndexDiverges(rel, v)
  {
    if IndexDiverges(rel, v) {
      var w := EndlessWhy(rel, v);
      if n: nat, off: nat :| ChildCircle(rel, RightOf(rel, w.leftmost, n), off) {
        QuietNoCircle(rel, RightOf(rel, w.leftmost, n), off);
      }
    }
  }

  lemma QuietNoCircle(rel: seq<Page>, b: nat, off: nat)
    requires QuietChild(rel, b, off)
    ensures !ChildCircle(rel, b, off)
  {
    if b < |rel| && !rel[b].leaf && rel[b].Data(off) {
      var c := rel[b].Down(off);
      assert Unexcused(rel, RightOf(rel, c, 0)) && Unexcused(rel, RightOf(rel, c, 1));
      assert !ExcusedRight(rel, c, 0);
    }
  }
}
