/**
 Concurrent bloom index activity as a state machine.

 Any number of processes insert, vacuum, clean up and scan at the same time.  A step of one
 process is what it does between two lock operations; WAL finish or abort makes it atomic.
 The free space map may name any block, and block numbers read from the metapage may be stale.
 */
module BloomConcurrency {
  import opened BloomSignature
  import opened BloomPage
  import opened Optional

  datatype MetaPage = MetaPage(nStart: nat, nEnd: nat, notFull: seq<nat>) {
    function At(i: nat): nat {
      if i < |notFull| then notFull[i] else 0
    }
  }

  /** Where a process is: what it waits for next, what it holds, and its local variables. */
  datatype Pc =
    | Idle
    // blinsert
    | WantShare(t: Tuple)                       // about to lock the metapage in share mode
    | HaveShare(t: Tuple)
    | WantFirst(t: Tuple, b: nat)               // about to lock the first notFullPage block
    | HaveFirst(t: Tuple, b: nat)
    | WantExcl(t: Tuple, tried: Option<nat>)    // about to lock the metapage exclusively
    | HaveExcl(t: Tuple, n: nat)                // head of the retry loop with nStart == n
    | HavePage(t: Tuple, n: nat, b: nat)        // metapage and block notFullPage[n] locked
    | HaveNew(t: Tuple, b: nat)                 // metapage and a block from BloomNewBuffer locked
    | Failed                                    // "could not add new bloom tuple to empty page"
    // blbulkdelete
    | VacScan(b: nat, npages: nat, dead: set<nat>, list: seq<nat>)
    | VacPage(b: nat, npages: nat, dead: set<nat>, list: seq<nat>)
    | VacMeta(list: seq<nat>)
    // blvacuumcleanup
    | CleanScan(b: nat, npages: nat)
    | CleanPage(b: nat, npages: nat)
    // blgetbitmap
    | Scan(b: nat, npages: nat, want: seq<Word>, found: set<nat>)
    | ScanPage(b: nat, npages: nat, want: seq<Word>, found: set<nat>)
    | Scanned(want: seq<Word>, found: set<nat>)

  /** `requested` and `removed` record what callers asked to insert and what VACUUM took out. */
  datatype State = State(
    pages: seq<Page>, meta: MetaPage, fsm: set<nat>, procs: seq<Pc>,
    requested: multiset<Tuple>, removed: multiset<Tuple>)
  {
    function Page(b: nat): Page {
      if b < |pages| then pages[b] else Meta
    }

    function Put(b: nat, p: Page): State {
      if b < |pages| then this.(pages := pages[b := p]) else this
    }

    function Goto(p: nat, pc: Pc): State
      requires p < |procs|
    {
      this.(procs := procs[p := pc])
    }
  }

  // ----------------------------------------------------------------------------- locks

  datatype Lock = Unlocked | Shared | Exclusive

  predicate Compatible(a: Lock, b: Lock) {
    a.Unlocked? || b.Unlocked? || (a.Shared? && b.Shared?)
  }

  function MetaLock(pc: Pc): Lock {
    match pc
    case HaveShare(_) => Shared
    case HaveExcl(_, _) => Exclusive
    case HavePage(_, _, _) => Exclusive
    case HaveNew(_, _) => Exclusive
    case VacMeta(_) => Exclusive
    case _ => Unlocked
  }

  function PageLock(pc: Pc, b: nat): Lock {
    if (pc.HaveFirst? || pc.HavePage? || pc.HaveNew? || pc.VacPage?) && pc.b == b then Exclusive
    else if (pc.CleanPage? || pc.ScanPage?) && pc.b == b then Shared
    else Unlocked
  }

  ghost predicate MayLockMeta(s: State, p: nat, mode: Lock) {
    forall q :: 0 <= q < |s.procs| && q != p ==> Compatible(MetaLock(s.procs[q]), mode)
  }

  ghost predicate MayLockPage(s: State, p: nat, b: nat, mode: Lock) {
    forall q :: 0 <= q < |s.procs| && q != p ==> Compatible(PageLock(s.procs[q], b), mode)
  }

  // ----------------------------------------------------------------------------- steps

  /** Process p goes from s to s'; size is the size of a tuple of this index. */
  ghost predicate Step(size: nat, s: State, s': State, p: nat) {
    p < |s.procs| &&
    match s.procs[p]
    case Idle => Begin(s, s', p)
    case Failed => false
    case WantShare(t) => MayLockMeta(s, p, Shared) && s' == s.Goto(p, HaveShare(t))
    case HaveShare(t) =>
      s' == s.Goto(p, if s.meta.nStart < s.meta.nEnd then WantFirst(t, s.meta.At(s.meta.nStart))
                      else WantExcl(t, None))
    case WantFirst(t, b) => MayLockPage(s, p, b, Exclusive) && s' == s.Goto(p, HaveFirst(t, b))
    case HaveFirst(t, b) => s' == TryFirst(size, s, p, t, b)
    case WantExcl(t, tried) => MayLockMeta(s, p, Exclusive) && s' == s.Goto(p, HaveExcl(t, FirstTry(s.meta, tried)))
    case HaveExcl(t, n) =>
      if n < s.meta.nEnd then
        MayLockPage(s, p, s.meta.At(n), Exclusive) && s' == s.Goto(p, HavePage(t, n, s.meta.At(n)))
      else NewBuffer(s, s', p, t, n)
    case HavePage(t, n, b) => s' == TryNext(size, s, p, t, n, b)
    case HaveNew(t, b) => s' == FillNew(size, s, p, t, b)
    case VacScan(b, n, dead, list) =>
      if b < n then MayLockPage(s, p, b, Exclusive) && s' == s.Goto(p, VacPage(b, n, dead, list))
      else MayLockMeta(s, p, Exclusive) && s' == s.Goto(p, VacMeta(list))
    case VacPage(b, n, dead, list) => s' == VacuumBlock(size, s, p, b, n, dead, list)
    case VacMeta(list) => s' == WriteList(s, p, list)
    case CleanScan(b, n) =>
      if b < n then MayLockPage(s, p, b, Shared) && s' == s.Goto(p, CleanPage(b, n))
      else s' == s.Goto(p, Idle)
    case CleanPage(b, n) =>
      s' == (if s.Page(b).Free() then s.(fsm := s.fsm + {b}) else s).Goto(p, CleanScan(b + 1, n))
    case Scan(b, n, want, found) =>
      if b < n then MayLockPage(s, p, b, Shared) && s' == s.Goto(p, ScanPage(b, n, want, found))
      else s' == s.Goto(p, Scanned(want, found))
    case ScanPage(b, n, want, found) =>
      s' == s.Goto(p, Scan(b + 1, n, want, found + Hits(s.Page(b), want)))
    case Scanned(_, _) => s' == s.Goto(p, Idle)
  }

  /** The first point of an operation: an insert, a bulk delete, a cleanup or a scan. */
  ghost predicate Entry(s: State, pc: Pc) {
    match pc
    case WantShare(_) => true
    case VacScan(b, n, _, list) => b == 1 && n == |s.pages| && list == []
    case CleanScan(b, n) => b == 1 && n == |s.pages|
    case Scan(b, n, _, found) => b == 1 && n == |s.pages| && found == {}
    case _ => false
  }

  /** An idle process starts an operation; the tuple of an insert counts as requested from now on. */
  ghost predicate Begin(s: State, s': State, p: nat)
    requires p < |s.procs|
  {
    p < |s'.procs| &&
    var pc := s'.procs[p];
    Entry(s, pc) && s' == s.(requested := s.requested + Load(pc)).Goto(p, pc)
  }

  /** The attempt on the first notFullPage block, with no lock on the metapage. */
  ghost function TryFirst(size: nat, s: State, p: nat, t: Tuple, b: nat): State
    requires p < |s.procs|
  {
    var ts := Usable(s.Page(b));
    if Room(size, |ts|) then s.Put(b, Live(ts + [t])).Goto(p, Idle)
    else s.Goto(p, WantExcl(t, Some(b)))
  }

  /** Under the exclusive lock: skip the block already tried if it still comes first. */
  function FirstTry(meta: MetaPage, tried: Option<nat>): nat {
    if meta.nStart < meta.nEnd && tried == Some(meta.At(meta.nStart)) then meta.nStart + 1 else meta.nStart
  }

  ghost function TryNext(size: nat, s: State, p: nat, t: Tuple, n: nat, b: nat): State
    requires p < |s.procs|
  {
    var ts := Usable(s.Page(b));
    if Room(size, |ts|) then s.Put(b, Live(ts + [t])).(meta := s.meta.(nStart := n)).Goto(p, Idle)
    else s.Goto(p, HaveExcl(t, n + 1))
  }

  /** BloomNewBuffer: one round of the free space map loop, or extension of the file. */
  ghost predicate NewBuffer(s: State, s': State, p: nat, t: Tuple, n: nat)
    requires p < |s.procs|
  {
    || (exists b :: b in s.fsm &&
          s' == if MayLockPage(s, p, b, Exclusive) && s.Page(b).Free()
                then s.(fsm := s.fsm - {b}).Goto(p, HaveNew(t, b))
                else s.(fsm := s.fsm - {b}))
    || s' == s.(pages := s.pages + [New]).Goto(p, HaveNew(t, |s.pages|))
  }

  ghost function FillNew(size: nat, s: State, p: nat, t: Tuple, b: nat): State
    requires p < |s.procs|
  {
    if !Room(size, 0) then s.Goto(p, Failed)
    else
      var list := if s.meta.notFull == [] then [] else s.meta.notFull[0 := b];
      s.Put(b, Live([t])).(meta := MetaPage(0, 1, list)).Goto(p, Idle)
  }

  ghost function VacuumBlock(size: nat, s: State, p: nat, b: nat, n: nat, dead: set<nat>, list: seq<nat>): State
    requires p < |s.procs|
  {
    var page := VacuumPage(s.Page(b), dead);
    var list' := if Offered(size, page) && |list| < META_BLOCKS then list + [b] else list;
    s.Put(b, page).(removed := s.removed + multiset(Dropped(s.Page(b).Contents(), dead)))
      .Goto(p, VacScan(b + 1, n, dead, list'))
  }

  ghost function WriteList(s: State, p: nat, list: seq<nat>): State
    requires p < |s.procs|
  {
    var rest := if |list| <= |s.meta.notFull| then s.meta.notFull[|list|..] else [];
    s.(meta := MetaPage(0, |list|, list + rest)).Goto(p, Idle)
  }

  /** Heap pointers a scan takes from a page. */
  ghost function Hits(page: Page, want: seq<Word>): set<nat> {
    set t | t in page.Contents() && SignMatch(want, t.sign) :: t.tid
  }

  /** The word-by-word signature test of blgetbitmap. */
  ghost predicate SignMatch(want: seq<Word>, sign: seq<Word>) {
    |want| == |sign| && forall j :: 0 <= j < |want| ==> WordIn(want[j], sign[j])
  }

  // ------------------------------------------------------------------------- invariant

  ghost predicate DataBlock(s: State, b: nat) {
    1 <= b < |s.pages|
  }

  ghost predicate PageOk(size: nat, page: Page) {
    page != Meta && Fits(size, page) && (page.Live? ==> page.tuples != [])
  }

  ghost predicate PagesOk(size: nat, s: State) {
    |s.pages| >= 1 && s.pages[0] == Meta && forall b :: 1 <= b < |s.pages| ==> PageOk(size, s.pages[b])
  }

  ghost predicate BlocksOk(s: State, list: seq<nat>, n: nat) {
    n <= |list| && forall i :: 0 <= i < n ==> DataBlock(s, list[i])
  }

  ghost predicate MetaOk(s: State) {
    |s.meta.notFull| == META_BLOCKS && s.meta.nStart <= s.meta.nEnd && BlocksOk(s, s.meta.notFull, s.meta.nEnd)
  }

  ghost predicate FsmOk(s: State) {
    forall b :: b in s.fsm ==> DataBlock(s, b)
  }

  /** What holds of a process's local variables in every state in which it is at this point. */
  ghost predicate PcOk(s: State, pc: Pc) {
    match pc
    case Failed => false
    case WantFirst(_, b) => DataBlock(s, b)
    case HaveFirst(_, b) => DataBlock(s, b)
    case HavePage(_, n, b) => n < s.meta.nEnd && DataBlock(s, b)
    case HaveNew(_, b) => DataBlock(s, b) && s.pages[b].Free()
    case VacScan(b, n, _, list) => 1 <= b && n <= |s.pages| && |list| <= META_BLOCKS && BlocksOk(s, list, |list|)
    case VacPage(b, n, _, list) => 1 <= b < n <= |s.pages| && |list| <= META_BLOCKS && BlocksOk(s, list, |list|)
    case VacMeta(list) => |list| <= META_BLOCKS && BlocksOk(s, list, |list|)
    case CleanScan(b, n) => 1 <= b && n <= |s.pages|
    case CleanPage(b, n) => 1 <= b < n <= |s.pages|
    case Scan(b, n, _, _) => 1 <= b && n <= |s.pages|
    case ScanPage(b, n, _, _) => 1 <= b < n <= |s.pages|
    case _ => true
  }

  ghost predicate PcsOk(s: State) {
    forall q :: 0 <= q < |s.procs| ==> PcOk(s, s.procs[q])
  }

  /** No two processes hold conflicting locks. */
  ghost predicate LocksOk(s: State) {
    && (forall p, q :: 0 <= p < |s.procs| && 0 <= q < |s.procs| && p != q ==>
          Compatible(MetaLock(s.procs[p]), MetaLock(s.procs[q])))
    && (forall p, q, b :: 0 <= p < |s.procs| && 0 <= q < |s.procs| && p != q ==>
          Compatible(PageLock(s.procs[p], b), PageLock(s.procs[q], b)))
  }

  /** The tuple an unfinished insert carries. */
  function Load(pc: Pc): multiset<Tuple> {
    match pc
    case WantShare(t) => multiset{t}
    case HaveShare(t) => multiset{t}
    case WantFirst(t, _) => multiset{t}
    case HaveFirst(t, _) => multiset{t}
    case WantExcl(t, _) => multiset{t}
    case HaveExcl(t, _) => multiset{t}
    case HavePage(t, _, _) => multiset{t}
    case HaveNew(t, _) => multiset{t}
    case _ => multiset{}
  }

  ghost function PendingBelow(procs: seq<Pc>, hi: nat): multiset<Tuple>
    requires hi <= |procs|
  {
    if hi == 0 then multiset{} else PendingBelow(procs, hi - 1) + Load(procs[hi - 1])
  }

  ghost function Pending(procs: seq<Pc>): multiset<Tuple> {
    PendingBelow(procs, |procs|)
  }

  /** Every requested tuple is exactly once on a page, removed by VACUUM, or still under way. */
  ghost predicate Conserved(s: State) {
    s.requested == AllTuples(s.pages) + s.removed + Pending(s.procs)
  }

  ghost predicate Inv(size: nat, s: State) {
    PagesOk(size, s) && MetaOk(s) && FsmOk(s) && PcsOk(s) && LocksOk(s) && Conserved(s)
  }

  /** The states an index can start from: what blbuild leaves, nobody active, any free space map. */
  ghost predicate Init(size: nat, s: State) {
    && PagesOk(size, s)
    && s.meta.nStart == 0 && s.meta.nEnd == 0 && |s.meta.notFull| == META_BLOCKS
    && FsmOk(s)
    && (forall q :: 0 <= q < |s.procs| ==> s.procs[q].Idle?)
    && s.requested == AllTuples(s.pages) && s.removed == multiset{}
  }

  // --------------------------------------------------------------------- frame reasoning

  lemma {:induction false} PendingLocal(a: seq<Pc>, b: seq<Pc>, hi: nat)
    requires hi <= |a| && hi <= |b| && forall i :: 0 <= i < hi ==> a[i] == b[i]
    ensures PendingBelow(a, hi) == PendingBelow(b, hi)
  {
    if hi > 0 { PendingLocal(a, b, hi - 1); }
  }

  lemma {:induction false} PendingUpdateBelow(procs: seq<Pc>, p: nat, pc: Pc, hi: nat)
    requires p < hi <= |procs|
    ensures PendingBelow(procs[p := pc], hi) + Load(procs[p]) == PendingBelow(procs, hi) + Load(pc)
  {
    if p < hi - 1 {
      PendingUpdateBelow(procs, p, pc, hi - 1);
      AddBoth(PendingBelow(procs[p := pc], hi - 1), PendingBelow(procs, hi - 1),
              Load(procs[p]), Load(pc), Load(procs[hi - 1]));
    } else {
      PendingLocal(procs, procs[p := pc], hi - 1);
    }
  }

  lemma {:induction false} NothingPending(procs: seq<Pc>, hi: nat)
    requires hi <= |procs| && forall q :: 0 <= q < hi ==> procs[q].Idle?
    ensures PendingBelow(procs, hi) == multiset{}
  {
    if hi > 0 { NothingPending(procs, hi - 1); }
  }

  /** Conservation after one page went from `was` to `now` and one process changed its load. */
  lemma ConservedStep(s: State, s': State, p: nat, pc: Pc, was: seq<Tuple>, now: seq<Tuple>, gone: multiset<Tuple>)
    requires Conserved(s) && p < |s.procs| && s'.procs == s.procs[p := pc]
    requires AllTuples(s'.pages) + multiset(was) == AllTuples(s.pages) + multiset(now)
    requires s'.requested == s.requested && s'.removed == s.removed + gone
    requires multiset(was) + Load(s.procs[p]) == multiset(now) + gone + Load(pc)
    ensures Conserved(s')
  {
    PendingUpdateBelow(s.procs, p, pc, |s.procs|);
    var a, a' := AllTuples(s.pages), AllTuples(s'.pages);
    var q, q' := Pending(s.procs), Pending(s'.procs);
    forall t ensures s'.requested[t] == (a' + s'.removed + q')[t] {
      assert (a' + multiset(was))[t] == (a + multiset(now))[t];
      assert (q' + Load(s.procs[p]))[t] == (q + Load(pc))[t];
      assert (multiset(was) + Load(s.procs[p]))[t] == (multiset(now) + gone + Load(pc))[t];
      assert s.requested[t] == (a + s.removed + q)[t];
    }
  }

  /**
   A step keeps the invariant when it changes pages and the metapage only under its own
   exclusive locks and takes only locks it may take.
   */
  lemma Framed(size: nat, s: State, s': State, p: nat, pc: Pc)
    requires Inv(size, s) && p < |s.procs| && s'.procs == s.procs[p := pc]
    requires PagesOk(size, s') && MetaOk(s') && FsmOk(s') && PcOk(s', pc) && Conserved(s')
    requires |s.pages| <= |s'.pages|
    requires forall b :: 0 <= b < |s.pages| && s'.pages[b] != s.pages[b] ==> PageLock(s.procs[p], b).Exclusive?
    requires s'.meta != s.meta ==> MetaLock(s.procs[p]).Exclusive?
    requires MayLockMeta(s, p, MetaLock(pc)) && forall b :: MayLockPage(s, p, b, PageLock(pc, b))
    ensures Inv(size, s')
  {
    forall q | 0 <= q < |s'.procs| && q != p ensures PcOk(s', s'.procs[q]) {
      var other := s.procs[q];
      assert PcOk(s, other) && Compatible(MetaLock(s.procs[p]), MetaLock(other));
      if other.HaveNew? {
        assert Compatible(PageLock(s.procs[p], other.b), PageLock(other, other.b));
      }
    }
    LocksAfter(s, s', p, pc);
  }

  lemma LocksAfter(s: State, s': State, p: nat, pc: Pc)
    requires LocksOk(s) && p < |s.procs| && s'.procs == s.procs[p := pc]
    requires MayLockMeta(s, p, MetaLock(pc)) && forall b :: MayLockPage(s, p, b, PageLock(pc, b))
    ensures LocksOk(s')
  {
    forall i, j | 0 <= i < |s'.procs| && 0 <= j < |s'.procs| && i != j
      ensures Compatible(MetaLock(s'.procs[i]), MetaLock(s'.procs[j]))
    {
      assert i != p && j != p ==> Compatible(MetaLock(s.procs[i]), MetaLock(s.procs[j]));
    }
    forall i, j, b | 0 <= i < |s'.procs| && 0 <= j < |s'.procs| && i != j
      ensures Compatible(PageLock(s'.procs[i], b), PageLock(s'.procs[j], b))
    {
      assert MayLockPage(s, p, b, PageLock(pc, b));
      assert i != p && j != p ==> Compatible(PageLock(s.procs[i], b), PageLock(s.procs[j], b));
    }
  }

  /** A process keeps the locks it already holds. */
  lemma KeepsLocks(s: State, p: nat)
    requires LocksOk(s) && p < |s.procs|
    ensures MayLockMeta(s, p, MetaLock(s.procs[p])) && forall b :: MayLockPage(s, p, b, PageLock(s.procs[p], b))
  {}

  /** Steps that change only the process itself and perhaps the free space map. */
  lemma QuietStep(size: nat, s: State, s': State, p: nat, pc: Pc)
    requires Inv(size, s) && p < |s.procs| && s' == s.(fsm := s'.fsm).Goto(p, pc)
    requires FsmOk(s') && PcOk(s, pc) && Load(pc) == Load(s.procs[p])
    requires MayLockMeta(s, p, MetaLock(pc)) && forall b :: MayLockPage(s, p, b, PageLock(pc, b))
    ensures Inv(size, s')
  {
    ConservedStep(s, s', p, pc, [], [], multiset{});
    assert PcOk(s', pc);
    Framed(size, s, s', p, pc);
  }

  /** The process ends up with no lock. */
  lemma QuietRelease(size: nat, s: State, s': State, p: nat, pc: Pc)
    requires Inv(size, s) && p < |s.procs| && s' == s.(fsm := s'.fsm).Goto(p, pc)
    requires FsmOk(s') && PcOk(s, pc) && Load(pc) == Load(s.procs[p])
    requires MetaLock(pc).Unlocked? && forall b :: PageLock(pc, b).Unlocked?
    ensures Inv(size, s')
  {
    QuietStep(size, s, s', p, pc);
  }

  /** The process ends up with a lock on block b, perhaps beside the metapage lock. */
  lemma QuietLock(size: nat, s: State, s': State, p: nat, pc: Pc, b: nat)
    requires Inv(size, s) && p < |s.procs| && s' == s.(fsm := s'.fsm).Goto(p, pc)
    requires FsmOk(s') && PcOk(s, pc) && Load(pc) == Load(s.procs[p])
    requires MayLockMeta(s, p, MetaLock(pc)) && MayLockPage(s, p, b, PageLock(pc, b))
    requires forall c :: c != b ==> PageLock(pc, c).Unlocked?
    ensures Inv(size, s')
  {
    forall c ensures MayLockPage(s, p, c, PageLock(pc, c)) {}
    QuietStep(size, s, s', p, pc);
  }
}
