/**
 B-tree pages as amcheck sees them, and what its checks are meant to establish about them.

 A relation is the list of its blocks; block 0 is the metapage and 0 also stands for "no block".
 Pages may hold arbitrary links and keys.  Item offsets start at 1.
 */
module NbtreePage {
  import opened Distinctness
  import opened NbtreeKey
  import opened Optional

  datatype Item = Item(key: Key, down: nat)

  datatype Page = Page(level: nat, leaf: bool, root: bool, halfDead: bool, deleted: bool, fullXid: bool, incomplete: bool,
                       prev: nat, next: nat, items: seq<Item>) {
    predicate Rightmost() {
      next == 0
    }

    predicate Ignore() {
      halfDead || deleted
    }

    /** P_FIRSTDATAKEY: offset 1 is the high key, except on a rightmost page, which has none. */
    function FirstData(): nat {
      if Rightmost() then 1 else 2
    }

    predicate Data(off: nat) {
      FirstData() <= off <= |items|
    }

    /** offset_is_negative_infinity */
    predicate NegInf(off: nat) {
      !leaf && off == FirstData()
    }

    /** A data item with a key worth comparing. */
    predicate Real(off: nat) {
      Data(off) && !NegInf(off)
    }

    predicate HasHigh() {
      !Rightmost() && |items| >= 1
    }

    function Key(off: nat): Key
      requires 1 <= off <= |items|
    {
      items[off - 1].key
    }

    function High(): Key
      requires HasHigh()
    {
      items[0].key
    }

    function Down(off: nat): nat
      requires 1 <= off <= |items|
    {
      items[off - 1].down
    }

    /** Pages deleted before version 14 keep a transaction id where the level was. */
    predicate HasLevel() {
      !deleted || fullXid
    }

    /** The sanity checks of palloc_btree_page. */
    predicate Sane() {
      && (HasLevel() ==> (leaf <==> level == 0))
      && (fullXid ==> deleted)
      && (!leaf && !deleted ==> |items| >= FirstData())
      && (leaf && !deleted && !Rightmost() ==> |items| >= 1)
      && (!leaf ==> !halfDead)
      && !(deleted && halfDead)
    }
  }

  /** Block b can be read: it exists and passes the sanity checks. */
  predicate Block(rel: seq<Page>, b: nat) {
    1 <= b < |rel| && rel[b].Sane()
  }

  /** Accepted so far, an error report, or a loop that never ends. */
  datatype Outcome = Accepted | Corrupt | Runaway {
    predicate IsFailure() {
      !Accepted?
    }

    function PropagateFailure(): Outcome {
      this
    }
  }

  function Require(ok: bool): Outcome {
    if ok then Accepted else Corrupt
  }

  // --------------------------------------------------------------------- chains of blocks

  /** Readable blocks, each the right sibling of the one before it. */
  ghost predicate IsChain(rel: seq<Page>, c: seq<nat>) {
    (forall i :: 0 <= i < |c| ==> Block(rel, c[i])) &&
    (forall i :: 0 <= i < |c| - 1 ==> rel[c[i]].next == c[i + 1])
  }

  /** A chain that runs into the right edge cannot have come back to a block. */
  lemma EndedChainDistinct(rel: seq<Page>, c: seq<nat>)
    requires IsChain(rel, c) && (c != [] ==> rel[c[|c| - 1]].next == 0)
    ensures Distinct(c)
  {
    forall i, j | 0 <= i < j < |c| ensures c[i] != c[j] { NoReturn(rel, c, i, j); }
  }

  lemma {:induction false} NoReturn(rel: seq<Page>, c: seq<nat>, i: nat, j: nat)
    requires IsChain(rel, c) && i < j < |c| && rel[c[|c| - 1]].next == 0
    ensures c[i] != c[j]
    decreases |c| - j
  {
    assert rel[c[i]].next == c[i + 1] && Block(rel, c[i + 1]);
    if j < |c| - 1 {
      NoReturn(rel, c, i + 1, j + 1);
      assert rel[c[j]].next == c[j + 1];
    }
  }

  /** Two chains from the same block that both reach the right edge are the same. */
  lemma {:induction false} ChainsAgree(rel: seq<Page>, c: seq<nat>, d: seq<nat>)
    requires IsChain(rel, c) && IsChain(rel, d) && c != [] && d != [] && c[0] == d[0]
    requires rel[c[|c| - 1]].next == 0 && rel[d[|d| - 1]].next == 0
    ensures c == d
  {
    assert |c| > 1 ==> rel[c[0]].next == c[1] && Block(rel, c[1]);
    assert |d| > 1 ==> rel[d[0]].next == d[1] && Block(rel, d[1]);
    if |c| > 1 {
      assert IsChain(rel, c[1..]) && IsChain(rel, d[1..]);
      ChainsAgree(rel, c[1..], d[1..]);
      assert c == [c[0]] + c[1..] && d == [d[0]] + d[1..];
    }
  }

  /** The block n steps to the right of b. */
  ghost function RightOf(rel: seq<Page>, b: nat, n: nat): nat {
    if n == 0 then b
    else
      var a := RightOf(rel, b, n - 1);
      if 0 < a < |rel| then rel[a].next else 0
  }

  /** From a block that comes twice the walk goes on in the same way. */
  lemma {:induction false} RightShift(rel: seq<Page>, b: nat, i: nat, j: nat, k: nat)
    requires RightOf(rel, b, i) == RightOf(rel, b, j)
    ensures RightOf(rel, b, i + k) == RightOf(rel, b, j + k)
  {
    if k > 0 { RightShift(rel, b, i, j, k - 1); }
  }

  /** A walk over more blocks than the relation has comes to a block twice. */
  lemma RightRepeats(rel: seq<Page>, b: nat) returns (i: nat, j: nat)
    requires forall n: nat :: n <= |rel| ==> RightOf(rel, b, n) < |rel|
    ensures i < j <= |rel| && RightOf(rel, b, i) == RightOf(rel, b, j)
  {
    var s := seq(|rel| + 1, (n: nat) => RightOf(rel, b, n));
    assert !Distinct(s) by {
      if Distinct(s) { Pigeonhole(s, |rel|); }
    }
    i, j :| 0 <= i < j < |s| && s[i] == s[j];
  }

  // ------------------------------------------------------------------- the left edge

  /** Half-dead pages to the left of `start`, linked both ways, nearest first. */
  ghost predicate HalfDeadRun(rel: seq<Page>, start: nat, path: seq<nat>)
    requires start < |rel|
  {
    forall i :: 0 <= i < |path| ==> RunLink(rel, start, path, i)
  }

  ghost predicate RunLink(rel: seq<Page>, start: nat, path: seq<nat>, i: nat)
    requires i < |path|
  {
    HalfDeadLink(rel, start, if i == 0 then start else path[i - 1], path[i])
  }

  /** From `from`, the run goes on to b. */
  ghost predicate HalfDeadLink(rel: seq<Page>, start: nat, from: nat, b: nat) {
    from < |rel| && b == rel[from].prev && Block(rel, b) && rel[b].halfDead && b != start && b != from && rel[b].next == from
  }

  ghost function LastOf(start: nat, path: seq<nat>): nat {
    if path == [] then start else path[|path| - 1]
  }

  /** The block left of a run. */
  function Reached(rel: seq<Page>, start: nat, path: seq<nat>): nat
    requires start < |rel| && (path != [] ==> path[|path| - 1] < |rel|)
  {
    rel[if path == [] then start else path[|path| - 1]].prev
  }

  /** A run that cannot go on. */
  ghost predicate Stops(rel: seq<Page>, start: nat, path: seq<nat>)
    requires start < |rel|
  {
    HalfDeadRun(rel, start, path) && LastOf(start, path) < |rel| &&
    !HalfDeadLink(rel, start, LastOf(start, path), Reached(rel, start, path))
  }

  /** A consistent run of half-dead pages leads from `start` to the left edge of its level. */
  ghost predicate LeftEdge(rel: seq<Page>, start: nat) {
    start < |rel| && exists path :: HalfDeadRunToEdge(rel, start, path)
  }

  ghost predicate HalfDeadRunToEdge(rel: seq<Page>, start: nat, path: seq<nat>)
    requires start < |rel|
  {
    Stops(rel, start, path) && Reached(rel, start, path) == 0
  }

  /** A consistent run of half-dead pages leads from `start` to a block that cannot be read. */
  ghost predicate BreaksOff(rel: seq<Page>, start: nat, path: seq<nat>)
    requires start < |rel|
  {
    Stops(rel, start, path) && Reached(rel, start, path) != 0 && !Block(rel, Reached(rel, start, path))
  }

  lemma FirstOnLevel(rel: seq<Page>, start: nat)
    requires start < |rel| && rel[start].prev == 0
    ensures LeftEdge(rel, start)
  {
    assert HalfDeadRunToEdge(rel, start, []);
  }

  /** Left of a page at the edge there is nothing, or a half-dead page. */
  lemma LeftOfEdge(rel: seq<Page>, start: nat)
    requires LeftEdge(rel, start)
    ensures rel[start].prev == 0 || (Block(rel, rel[start].prev) && rel[rel[start].prev].halfDead)
  {
    var path :| HalfDeadRunToEdge(rel, start, path);
    if path != [] { assert RunLink(rel, start, path, 0); }
  }

  lemma RunDistinct(rel: seq<Page>, start: nat, path: seq<nat>)
    requires start < |rel| && HalfDeadRun(rel, start, path)
    ensures Distinct(path)
  {
    forall i, j | 0 <= i < j < |path| ensures path[i] != path[j] { RunNoReturn(rel, start, path, i, j); }
  }

  lemma {:induction false} RunNoReturn(rel: seq<Page>, start: nat, path: seq<nat>, i: nat, j: nat)
    requires start < |rel| && HalfDeadRun(rel, start, path) && i < j < |path|
    ensures path[i] != path[j]
  {
    assert RunLink(rel, start, path, i) && RunLink(rel, start, path, j) && RunLink(rel, start, path, j - 1);
    if i > 0 { RunNoReturn(rel, start, path, i - 1, j - 1); }
  }

  lemma RunBounded(rel: seq<Page>, start: nat, path: seq<nat>)
    requires start < |rel| && HalfDeadRun(rel, start, path)
    ensures |path| <= |rel|
  {
    RunDistinct(rel, start, path);
    forall i | 0 <= i < |path| ensures path[i] < |rel| {
      assert RunLink(rel, start, path, i);
    }
    Pigeonhole(path, |rel|);
  }

  /** A run is determined by where it starts: one that cannot go on extends any other. */
  lemma {:induction false} RunsAgree(rel: seq<Page>, start: nat, path: seq<nat>, full: seq<nat>, n: nat)
    requires start < |rel| && HalfDeadRun(rel, start, path) && Stops(rel, start, full) && n <= |path|
    ensures n <= |full| && full[..n] == path[..n]
  {
    if n > 0 {
      RunsAgree(rel, start, path, full, n - 1);
      assert RunLink(rel, start, path, n - 1);
      assert n > 1 ==> full[n - 2] == full[..n - 1][n - 2] && path[n - 2] == path[..n - 1][n - 2];
      assert n <= |full|;
      assert RunLink(rel, start, full, n - 1);
      assert full[..n] == full[..n - 1] + [full[n - 1]] && path[..n] == path[..n - 1] + [path[n - 1]];
    }
  }

  lemma StopsAgree(rel: seq<Page>, start: nat, path: seq<nat>)
    requires start < |rel| && Stops(rel, start, path)
    ensures forall other :: Stops(rel, start, other) ==> other == path
  {
    forall other | Stops(rel, start, other) ensures other == path {
      RunsAgree(rel, start, path, other, |path|);
      RunsAgree(rel, start, other, path, |other|);
      assert path[..|path|] == path && other[..|other|] == other;
    }
  }

  /**
   bt_leftmost_ignoring_half_dead.  It ends for any links at all, and says true exactly for the
   left edge.  None stands for an error report: the run comes to a block that cannot be read.
   */
  method LeftmostIgnoringHalfDead(rel: seq<Page>, start: nat) returns (res: Option<bool>)
    requires start < |rel|
    ensures res == Some(true) <==> LeftEdge(rel, start)
    ensures res == None <==> exists path :: BreaksOff(rel, start, path)
  {
    var reached, reachedFrom := rel[start].prev, start;
    var allHalfDead := true;
    ghost var path: seq<nat> := [];
    while reached != 0 && allHalfDead
      invariant HalfDeadRun(rel, start, path) && LastOf(start, path) < |rel| && reached == Reached(rel, start, path)
      invariant if allHalfDead then reachedFrom == LastOf(start, path) else reached != 0 && Stops(rel, start, path) && Block(rel, reached)
      invariant |path| <= |rel|
      decreases allHalfDead, |rel| - |path|
    {
      if !Block(rel, reached) {
        StopsAgree(rel, start, path);
        assert BreaksOff(rel, start, path);
        return None;
      }
      var page := rel[reached];
      allHalfDead := page.halfDead && reached != start && reached != reachedFrom && page.next == reachedFrom;
      if allHalfDead {
        ghost var longer := path + [reached];
        assert HalfDeadRun(rel, start, longer) by {
          forall i | 0 <= i < |longer| ensures RunLink(rel, start, longer, i) {
            assert i < |path| ==> RunLink(rel, start, path, i);
          }
        }
        RunBounded(rel, start, longer);
        path := longer;
        reachedFrom := reached;
        reached := page.prev;
      }
    }
    StopsAgree(rel, start, path);
    if allHalfDead { assert HalfDeadRunToEdge(rel, start, path); }
    return Some(allHalfDead);
  }
}
