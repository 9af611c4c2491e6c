/**
 The three passes of verify_heapam.c over the line pointers of one heap page: line pointers and
 successors, update chains between successors, and roots of chains.
 */
module HeapChain {
  import opened Distinctness
  import opened HeapXid
  import opened Optional

  const BLCKSZ: nat := 8192
  const MIN_TUPLE: nat := 24    // MAXALIGN(SizeofHeapTupleHeader)

  /**
   The header fields that the passes look at.  `status` is what the tuple check found for xmin, and
   `running` the answer when that is asked once more.
   */
  datatype Tuple = Tuple(xmin: nat, updateXid: nat, heapOnly: bool, hotUpdated: bool, ctidBlock: nat, ctidOff: nat,
                         status: Option<CommitStatus>, running: bool)

  datatype Item = Unused | Dead | Redirect(to: nat) | Normal(off: nat, len: nat, tup: Tuple)

  /** Line pointers have offsets 1 to |items|. */
  datatype Page = Page(blkno: nat, items: seq<Item>) {
    predicate On(i: nat) {
      1 <= i <= |items|
    }

    function At(i: nat): Item
      requires On(i)
    {
      items[i - 1]
    }
  }

  datatype Fault =
    | RedirectPrecedesFirst | RedirectExceedsLast | RedirectToUnused | RedirectToDead | RedirectToRedirect
    | Misaligned | TooShort | BeyondPage
    | RedirectToNonHeapOnly | ChainsIntersect
    | HeapOnlyFromPlainUpdate | PlainFromHeapOnlyUpdate
    | InProgressBeforeCommitted | AbortedBeforeInProgress | AbortedBeforeCommitted
    | HeapOnlyRoot

  datatype Report = Report(off: nat, fault: Fault)

  // ---------------------------------------------------------------------- specification

  /** The line pointer passes the basic checks; nothing is asked of unused and dead ones. */
  predicate Sane(page: Page, i: nat)
    requires page.On(i)
  {
    match page.At(i)
    case Unused => true
    case Dead => true
    case Redirect(to) => page.On(to) && page.At(to).Normal?
    case Normal(off, len, _) => off % 8 == 0 && len >= MIN_TUPLE && off + len <= BLCKSZ
  }

  /** lp_valid */
  predicate Usable(page: Page, i: nat)
    requires page.On(i)
  {
    !page.At(i).Unused? && !page.At(i).Dead? && Sane(page, i)
  }

  /** successor, 0 for none */
  function Successor(page: Page, i: nat): (s: nat)
    requires page.On(i)
    ensures s != 0 ==> page.On(s)
  {
    if !Usable(page, i) then 0
    else match page.At(i)
      case Redirect(to) => to
      case Normal(_, _, t) =>
        if t.ctidBlock == page.blkno && t.ctidOff != i && page.On(t.ctidOff) then t.ctidOff else 0
  }

  /** xmin_commit_status, None where xmin_commit_status_ok is false */
  function Known(page: Page, i: nat): Option<CommitStatus>
    requires page.On(i)
  {
    if page.At(i).Normal? && Usable(page, i) then page.At(i).tup.status else None
  }

  /** i is followed by j in an update chain. */
  predicate Linked(page: Page, i: nat, j: nat) {
    page.On(i) && page.On(j) && Successor(page, i) == j && Usable(page, j) &&
    (page.At(i).Normal? ==>
      page.At(j).Normal? && page.At(i).tup.updateXid != 0 && page.At(i).tup.updateXid == page.At(j).tup.xmin)
  }

  /** The two ends of a link fit together. */
  predicate Agree(page: Page, i: nat, j: nat)
    requires Linked(page, i, j)
  {
    if page.At(i).Redirect? then page.At(j).tup.heapOnly
    else
      && page.At(i).tup.hotUpdated == page.At(j).tup.heapOnly
      && !(Known(page, i) == Some(InProgress) && Known(page, j) == Some(Committed) && page.At(i).tup.running)
      && !(Known(page, i) == Some(Aborted) && Known(page, j) in {Some(InProgress), Some(Committed)})
  }

  /** The tuple's inserter is known to have committed or to be running. */
  predicate Live(page: Page, j: nat)
    requires page.On(j)
  {
    Known(page, j) in {Some(Committed), Some(InProgress)}
  }

  ghost predicate OneOwner(page: Page) {
    forall i, k, j :: Linked(page, i, j) && Linked(page, k, j) ==> i == k
  }

  ghost predicate AllAgree(page: Page) {
    forall i, j :: Linked(page, i, j) ==> Agree(page, i, j)
  }

  ghost predicate Owned(page: Page, j: nat) {
    exists i :: Linked(page, i, j)
  }

  ghost predicate NoStrayHeapOnly(page: Page) {
    forall j: nat :: page.On(j) && Live(page, j) && page.At(j).tup.heapOnly ==> Owned(page, j)
  }

  ghost predicate AllSane(page: Page) {
    forall i: nat :: page.On(i) ==> Sane(page, i)
  }

  ghost predicate Sound(page: Page) {
    AllSane(page) && OneOwner(page) && AllAgree(page) && NoStrayHeapOnly(page)
  }

  // ------------------------------------------------------------------------- first pass

  method CheckRedirect(page: Page, i: nat) returns (reports: seq<Report>)
    requires page.On(i) && page.At(i).Redirect?
    ensures reports == [] <==> Sane(page, i)
  {
    var to := page.At(i).to;
    if to < 1 { return [Report(i, RedirectPrecedesFirst)]; }
    if to > |page.items| { return [Report(i, RedirectExceedsLast)]; }
    match page.At(to)
    case Unused => return [Report(i, RedirectToUnused)];
    case Dead => return [Report(i, RedirectToDead)];
    case Redirect(_) => return [Report(i, RedirectToRedirect)];
    case Normal(_, _, _) => return [];
  }

  method CheckPointer(page: Page, i: nat) returns (reports: seq<Report>)
    requires page.On(i) && page.At(i).Normal?
    ensures reports == [] <==> Sane(page, i)
  {
    var item := page.At(i);
    if item.off % 8 != 0 { return [Report(i, Misaligned)]; }
    if item.len < MIN_TUPLE { return [Report(i, TooShort)]; }
    if item.off + item.len > BLCKSZ { return [Report(i, BeyondPage)]; }
    return [];
  }

  ghost predicate FirstPassDone(page: Page, successor: array<nat>, usable: array<bool>, known: array<Option<CommitStatus>>, hi: nat)
    reads successor, usable, known
  {
    successor.Length == usable.Length == known.Length == |page.items| + 1 &&
    forall i: nat :: page.On(i) && i < hi ==>
      successor[i] == Successor(page, i) && usable[i] == Usable(page, i) && known[i] == Known(page, i)
  }

  /** One round of the first pass. */
  method OnePointer(page: Page, i: nat)
    returns (reports: seq<Report>, successor: nat, usable: bool, known: Option<CommitStatus>)
    requires page.On(i)
    ensures reports == [] <==> Sane(page, i)
    ensures successor == Successor(page, i) && usable == Usable(page, i) && known == Known(page, i)
  {
    reports, successor, usable, known := [], 0, false, None;
    var item := page.At(i);
    if item.Redirect? {
      reports := CheckRedirect(page, i);
      if reports == [] { usable, successor := true, item.to; }
    } else if item.Normal? {
      reports := CheckPointer(page, i);
      if reports == [] {
        usable, known := true, item.tup.status;
        if item.tup.ctidBlock == page.blkno && item.tup.ctidOff != i && 1 <= item.tup.ctidOff <= |page.items| {
          successor := item.tup.ctidOff;
        }
      }
    }
  }

  method FirstPass(page: Page, successor: array<nat>, usable: array<bool>, known: array<Option<CommitStatus>>)
    returns (reports: seq<Report>)
    requires successor.Length == usable.Length == known.Length == |page.items| + 1
    modifies successor, usable, known
    ensures FirstPassDone(page, successor, usable, known, |page.items| + 1)
    ensures reports == [] <==> AllSane(page)
  {
    reports := [];
    var i := 1;
    while i <= |page.items|
      invariant 1 <= i <= |page.items| + 1
      invariant FirstPassDone(page, successor, usable, known, i)
      invariant reports == [] <==> forall k: nat :: page.On(k) && k < i ==> Sane(page, k)
    {
      var found;
      found, successor[i], usable[i], known[i] := OnePointer(page, i);
      reports := reports + found;
      i := i + 1;
    }
  }

  // ------------------------------------------------------------------------ second pass

  /** What the checks on a linked pair of tuples report. */
  method CheckPair(page: Page, i: nat, j: nat, known: array<Option<CommitStatus>>) returns (reports: seq<Report>)
    requires Linked(page, i, j) && page.At(i).Normal? && known.Length == |page.items| + 1
    requires known[i] == Known(page, i) && known[j] == Known(page, j)
    ensures reports == [] <==> Agree(page, i, j)
  {
    var curr, next := page.At(i).tup, page.At(j).tup;
    reports := [];
    if !curr.hotUpdated && next.heapOnly { reports := reports + [Report(i, HeapOnlyFromPlainUpdate)]; }
    if curr.hotUpdated && !next.heapOnly { reports := reports + [Report(i, PlainFromHeapOnlyUpdate)]; }
    if known[i] == Some(InProgress) && known[j] == Some(Committed) && curr.running {
      reports := reports + [Report(i, InProgressBeforeCommitted)];
    }
    if known[i] == Some(Aborted) && known[j].Some? {
      if known[j] == Some(InProgress) {
        reports := reports + [Report(i, AbortedBeforeInProgress)];
      } else if known[j] == Some(Committed) {
        reports := reports + [Report(i, AbortedBeforeCommitted)];
      }
    }
  }

  /** The predecessors set by the links that start below offset hi. */
  ghost predicate Predecessors(page: Page, predecessor: seq<nat>, hi: nat) {
    |predecessor| == |page.items| + 1 &&
    forall j: nat :: page.On(j) ==>
      (predecessor[j] != 0 ==> predecessor[j] < hi && Linked(page, predecessor[j], j)) &&
      (predecessor[j] == 0 ==> forall i :: Linked(page, i, j) ==> hi <= i)
  }

  ghost predicate AgreeBelow(page: Page, hi: nat) {
    forall i: nat, j :: Linked(page, i, j) && i < hi ==> Agree(page, i, j)
  }

  ghost predicate OneOwnerBelow(page: Page, hi: nat) {
    forall i: nat, k: nat, j :: Linked(page, i, j) && Linked(page, k, j) && i < hi && k < hi ==> i == k
  }

  /** No link from below offset hi meets another one or disagrees. */
  ghost predicate LinksSound(page: Page, hi: nat) {
    AgreeBelow(page, hi) && OneOwnerBelow(page, hi)
  }

  lemma OneOwnerStep(page: Page, i: nat, j: nat, predecessor: seq<nat>)
    requires Predecessors(page, predecessor, i) && Linked(page, i, j)
    ensures OneOwnerBelow(page, i + 1) <==> OneOwnerBelow(page, i) && predecessor[j] == 0
  {
    if predecessor[j] != 0 {
      assert Linked(page, predecessor[j], j);
    } else if OneOwnerBelow(page, i) {
      forall a: nat, k: nat, t | Linked(page, a, t) && Linked(page, k, t) && a < i + 1 && k < i + 1 ensures a == k {}
    }
  }

  lemma LinksSoundStep(page: Page, i: nat, j: nat, predecessor: seq<nat>)
    requires Predecessors(page, predecessor, i) && Linked(page, i, j)
    ensures LinksSound(page, i + 1) <==> LinksSound(page, i) && Agree(page, i, j) && predecessor[j] == 0
  {
    OneOwnerStep(page, i, j, predecessor);
    if AgreeBelow(page, i) && Agree(page, i, j) {
      forall a: nat, t | Linked(page, a, t) && a < i + 1 ensures Agree(page, a, t) {}
    }
  }

  lemma LinksSoundSkip(page: Page, i: nat)
    requires forall j :: !Linked(page, i, j)
    ensures LinksSound(page, i + 1) <==> LinksSound(page, i)
  {
    forall a: nat, j | Linked(page, a, j) && a < i + 1 ensures a < i {}
  }

  lemma PredecessorsSkip(page: Page, predecessor: seq<nat>, i: nat)
    requires Predecessors(page, predecessor, i)
    requires forall j: nat :: page.On(j) && predecessor[j] == 0 ==> !Linked(page, i, j)
    ensures Predecessors(page, predecessor, i + 1)
  {}

  lemma PredecessorsStep(page: Page, predecessor: seq<nat>, i: nat, j: nat)
    requires Predecessors(page, predecessor, i) && Linked(page, i, j) && predecessor[j] == 0
    ensures Predecessors(page, predecessor[j := i], i + 1)
  {}

  method SecondPass(page: Page, successor: array<nat>, usable: array<bool>, known: array<Option<CommitStatus>>,
                    predecessor: array<nat>)
    returns (reports: seq<Report>)
    requires FirstPassDone(page, successor, usable, known, |page.items| + 1)
    requires predecessor.Length == |page.items| + 1 && predecessor != successor
    requires forall j :: 0 <= j < predecessor.Length ==> predecessor[j] == 0
    modifies predecessor
    ensures Predecessors(page, predecessor[..], |page.items| + 1)
    ensures reports == [] <==> LinksSound(page, |page.items| + 1)
  {
    reports := [];
    var i := 1;
    while i <= |page.items|
      invariant 1 <= i <= |page.items| + 1
      invariant Predecessors(page, predecessor[..], i)
      invariant reports == [] <==> LinksSound(page, i)
    {
      var found := OneLink(page, successor, usable, known, predecessor, i);
      reports := reports + found;
      i := i + 1;
    }
  }

  /** One round of the second pass. */
  method OneLink(page: Page, successor: array<nat>, usable: array<bool>, known: array<Option<CommitStatus>>,
                 predecessor: array<nat>, i: nat)
    returns (reports: seq<Report>)
    requires FirstPassDone(page, successor, usable, known, |page.items| + 1)
    requires predecessor.Length == |page.items| + 1 && predecessor != successor && page.On(i)
    requires Predecessors(page, predecessor[..], i)
    modifies predecessor
    ensures Predecessors(page, predecessor[..], i + 1)
    ensures LinksSound(page, i + 1) <==> LinksSound(page, i) && reports == []
  {
    reports := [];
    ghost var before := predecessor[..];
    var j := successor[i];
    if j == 0 || !usable[j] {
      LinksSoundSkip(page, i);
      PredecessorsSkip(page, before, i);
      return;
    }
    if page.At(i).Redirect? {
      assert Linked(page, i, j);
      LinksSoundStep(page, i, j, before);
      if !page.At(j).tup.heapOnly { reports := reports + [Report(i, RedirectToNonHeapOnly)]; }
      if predecessor[j] != 0 {
        PredecessorsSkip(page, before, i);
        reports := reports + [Report(i, ChainsIntersect)];
        return;
      }
      PredecessorsStep(page, before, i, j);
      predecessor[j] := i;
      assert predecessor[..] == before[j := i];
      return;
    }
    if page.At(j).Redirect? || page.At(i).tup.updateXid == 0 || page.At(i).tup.updateXid != page.At(j).tup.xmin {
      LinksSoundSkip(page, i);
      PredecessorsSkip(page, before, i);
      return;
    }
    assert Linked(page, i, j);
    LinksSoundStep(page, i, j, before);
    if predecessor[j] != 0 {
      PredecessorsSkip(page, before, i);
      reports := [Report(i, ChainsIntersect)];
      return;
    }
    PredecessorsStep(page, before, i, j);
    predecessor[j] := i;
    assert predecessor[..] == before[j := i];
    reports := CheckPair(page, i, j, known);
  }

  // ------------------------------------------------------------------------- third pass

  method ThirdPass(page: Page, known: array<Option<CommitStatus>>, predecessor: array<nat>) returns (reports: seq<Report>)
    requires known.Length == |page.items| + 1 == predecessor.Length
    requires forall i: nat :: page.On(i) ==> known[i] == Known(page, i)
    requires Predecessors(page, predecessor[..], |page.items| + 1)
    ensures reports == [] <==> NoStrayHeapOnly(page)
  {
    reports := [];
    var i := 1;
    while i <= |page.items|
      invariant 1 <= i <= |page.items| + 1
      invariant reports == [] <==>
        forall j: nat :: page.On(j) && j < i && Live(page, j) && page.At(j).tup.heapOnly ==> Owned(page, j)
    {
      assert Owned(page, i) <==> predecessor[..][i] != 0;
      if (known[i] == Some(Committed) || known[i] == Some(InProgress)) && predecessor[i] == 0 {
        if !page.At(i).Redirect? && page.At(i).tup.heapOnly { reports := reports + [Report(i, HeapOnlyRoot)]; }
      }
      i := i + 1;
    }
  }

  /** The passes report nothing exactly when the page is sound. */
  method CheckPage(page: Page) returns (reports: seq<Report>)
    ensures reports == [] <==> Sound(page)
  {
    var n := |page.items| + 1;
    var successor, usable, known := new nat[n], new bool[n], new Option<CommitStatus>[n];
    var predecessor := new nat[n](_ => 0);
    var first := FirstPass(page, successor, usable, known);
    var second := SecondPass(page, successor, usable, known, predecessor);
    var third := ThirdPass(page, known, predecessor);
    LinksSoundAll(page);
    return first + second + third;
  }

  lemma LinksSoundAll(page: Page)
    ensures LinksSound(page, |page.items| + 1) <==> OneOwner(page) && AllAgree(page)
  {}

  // ------------------------------------------------------------ what a silent page is like

  /** Every redirect leads to a heap-only tuple that nothing else leads to. */
  lemma RedirectsLeadToHeapOnly(page: Page, i: nat)
    requires Sound(page) && page.On(i) && page.At(i).Redirect?
    ensures var to := page.At(i).to;
            page.On(to) && page.At(to).Normal? && page.At(to).tup.heapOnly && forall k :: Linked(page, k, to) <==> k == i
  {
    var to := page.At(i).to;
    assert Sane(page, i) && Sane(page, to);
    assert Linked(page, i, to) && Agree(page, i, to);
  }

  /**
   Every heap-only tuple whose inserter committed or is running has exactly one predecessor: a
   redirect, or a version that was HOT-updated by the transaction that inserted the tuple.
   */
  lemma HeapOnlyHasPredecessor(page: Page, j: nat) returns (i: nat)
    requires Sound(page) && page.On(j) && Live(page, j) && page.At(j).tup.heapOnly
    ensures Linked(page, i, j) && forall k :: Linked(page, k, j) ==> k == i
    ensures page.At(i).Redirect? || (page.At(i).tup.hotUpdated && page.At(i).tup.updateXid == page.At(j).tup.xmin)
  {
    assert Owned(page, j);
    i :| Linked(page, i, j);
    assert Agree(page, i, j);
  }

  ghost predicate Root(page: Page, i: nat) {
    page.On(i) && (page.At(i).Redirect? || (page.At(i).Normal? && !page.At(i).tup.heapOnly))
  }

  ghost predicate LiveHeapOnly(page: Page, i: nat) {
    page.On(i) && Live(page, i) && page.At(i).tup.heapOnly
  }

  /** A heap-only tuple of the checking transaction, or one whose commit status was not found. */
  ghost predicate Undecided(page: Page, i: nat) {
    page.On(i) && page.At(i).Normal? && page.At(i).tup.heapOnly && Known(page, i) in {None, Some(CurrentXid)}
  }

  /** c walks backwards over links; all but its last item are live heap-only tuples. */
  ghost predicate Backward(page: Page, c: seq<nat>) {
    c != [] && forall k :: 0 <= k < |c| - 1 ==> LiveHeapOnly(page, c[k]) && Linked(page, c[k + 1], c[k])
  }

  /** Links never fork, so a backward walk can only come back to where it began. */
  lemma OnlyBackToStart(page: Page, c: seq<nat>, m: nat)
    requires Backward(page, c) && Distinct(c) && 0 < m < |c|
    ensures !Linked(page, c[m], c[|c| - 1])
  {
    assert Linked(page, c[m - 1 + 1], c[m - 1]);
  }

  lemma LivePredecessor(page: Page, i: nat, j: nat)
    requires Sound(page) && Linked(page, i, j) && Live(page, j)
    ensures Root(page, i) || LiveHeapOnly(page, i) || Undecided(page, i)
  {
    assert Agree(page, i, j);
    if page.At(i).Normal? && Known(page, i).Some? {
      assert Usable(page, i) && Known(page, i) != Some(Aborted);
      var status := Known(page, i).value;
      assert Known(page, i) == Some(status);
      assert status.Committed? || status.InProgress? || status.CurrentXid?;
    }
  }

  /** The walk ends at the root of a chain: a redirect, or a tuple that is not heap-only. */
  ghost predicate ToRoot(page: Page, c: seq<nat>, j: nat) {
    Backward(page, c) && c[0] == j && Root(page, c[|c| - 1])
  }

  ghost predicate ToUndecided(page: Page, c: seq<nat>, j: nat) {
    Backward(page, c) && c[0] == j && Undecided(page, c[|c| - 1])
  }

  /** The walk comes back to where it began. */
  ghost predicate Round(page: Page, c: seq<nat>, j: nat) {
    Backward(page, c) && c[0] == j && |c| > 1 && c[|c| - 1] == j
  }

  /** The walk over predecessors from a live heap-only tuple of a silent page ends in one of three ways. */
  lemma {:induction false} WalkBack(page: Page, c: seq<nat>) returns (walk: seq<nat>)
    requires Sound(page) && Backward(page, c) && Distinct(c) && LiveHeapOnly(page, c[|c| - 1])
    ensures ToRoot(page, walk, c[0]) || ToUndecided(page, walk, c[0]) || Round(page, walk, c[0])
    decreases |page.items| + 1 - |c|
  {
    forall m | 0 < m < |c| ensures !Linked(page, c[m], c[|c| - 1]) { OnlyBackToStart(page, c, m); }
    var i := HeapOnlyHasPredecessor(page, c[|c| - 1]);
    LivePredecessor(page, i, c[|c| - 1]);
    walk := c + [i];
    if i !in c && LiveHeapOnly(page, i) {
      Pigeonhole(walk, |page.items| + 1);
      walk := WalkBack(page, walk);
    }
  }

  lemma {:induction false} WalksAgree(page: Page, c: seq<nat>, d: seq<nat>, k: nat)
    requires OneOwner(page) && Backward(page, c) && Backward(page, d) && c[0] == d[0] && k < |c| && k < |d|
    ensures c[k] == d[k]
  {
    if k > 0 {
      WalksAgree(page, c, d, k - 1);
      assert Linked(page, c[k - 1 + 1], c[k - 1]) && Linked(page, d[k - 1 + 1], d[k - 1]);
    }
  }

  /** A walk that cannot go on is at least as long as any other from the same tuple. */
  lemma EndedWalkLongest(page: Page, c: seq<nat>, d: seq<nat>)
    requires OneOwner(page) && Backward(page, c) && Backward(page, d) && c[0] == d[0] && !LiveHeapOnly(page, c[|c| - 1])
    ensures |d| <= |c|
  {
    if |d| > |c| { WalksAgree(page, c, d, |c| - 1); }
  }

  lemma {:induction false} RoundStays(page: Page, c: seq<nat>, d: seq<nat>, k: nat) returns (i: nat)
    requires OneOwner(page) && c != [] && Round(page, c, c[0]) && Backward(page, d) && c[0] == d[0] && k < |d|
    ensures i < |c| - 1 && d[k] == c[i]
  {
    if k == 0 { return 0; }
    var h := RoundStays(page, c, d, k - 1);
    assert Linked(page, c[h + 1], c[h]) && Linked(page, d[k - 1 + 1], d[k - 1]);
    i := if h + 1 < |c| - 1 then h + 1 else 0;
  }

  lemma RoundNeverEnds(page: Page, c: seq<nat>, d: seq<nat>)
    requires OneOwner(page) && c != [] && Round(page, c, c[0]) && Backward(page, d) && c[0] == d[0]
    ensures LiveHeapOnly(page, d[|d| - 1])
  {
    var i := RoundStays(page, c, d, |d| - 1);
  }

  lemma EndsExclude(page: Page, c: seq<nat>, d: seq<nat>, j: nat)
    requires OneOwner(page)
    ensures !(ToRoot(page, c, j) && ToUndecided(page, d, j))
    ensures !(Round(page, c, j) && (ToRoot(page, d, j) || ToUndecided(page, d, j)))
  {
    if ToRoot(page, c, j) && ToUndecided(page, d, j) {
      EndedWalkLongest(page, c, d);
      EndedWalkLongest(page, d, c);
      WalksAgree(page, c, d, |c| - 1);
    }
    if Round(page, c, j) && (ToRoot(page, d, j) || ToUndecided(page, d, j)) { RoundNeverEnds(page, c, d); }
  }

  /**
   On a silent page, a heap-only tuple whose inserter committed or is running has a chain root if
   and only if it is not on a cycle and its chain does not begin with an undecided tuple.
   */
  lemma RootedIff(page: Page, j: nat)
    requires Sound(page) && LiveHeapOnly(page, j)
    ensures (exists c :: ToRoot(page, c, j)) <==> !(exists c :: Round(page, c, j)) && !(exists c :: ToUndecided(page, c, j))
    ensures !((exists c :: Round(page, c, j)) && (exists c :: ToUndecided(page, c, j)))
  {
    var walk := WalkBack(page, [j]);
    forall c, d
      ensures !(ToRoot(page, c, j) && ToUndecided(page, d, j))
      ensures !(Round(page, c, j) && (ToRoot(page, d, j) || ToUndecided(page, d, j)))
    {
      EndsExclude(page, c, d, j);
    }
  }

  function CyclicPage(): Page {
    Page(7, [ Normal(8000, 32, Tuple(100, 101, true, true, 7, 2, Some(Committed), false)),
              Normal(8032, 32, Tuple(101, 100, true, true, 7, 1, Some(Committed), false)) ])
  }

  /** The cycle can happen: two heap-only tuples that follow each other raise no report. */
  lemma SilentCycle()
    ensures Sound(CyclicPage()) && LiveHeapOnly(CyclicPage(), 1)
    ensures Round(CyclicPage(), [1, 2, 1], 1)
    ensures forall i: nat :: CyclicPage().On(i) ==> !Root(CyclicPage(), i)
  {
    var page := CyclicPage();
    assert Linked(page, 1, 2) && Linked(page, 2, 1);
  }

  /** A heap-only tuple of the checking transaction, which nothing leads to, and its committed successor. */
  function RootlessPage(): Page {
    Page(7, [ Normal(8000, 32, Tuple(100, 101, true, true, 7, 2, Some(CurrentXid), false)),
              Normal(8032, 32, Tuple(101, 0, true, false, 7, 2, Some(Committed), false)) ])
  }

  /** So can the chain without a root and without a cycle. */
  lemma SilentRootless()
    ensures Sound(RootlessPage()) && LiveHeapOnly(RootlessPage(), 2)
    ensures ToUndecided(RootlessPage(), [2, 1], 2)
    ensures forall i: nat :: RootlessPage().On(i) ==> !Root(RootlessPage(), i)
  {
    var page := RootlessPage();
    assert Linked(page, 1, 2);
  }
}
