/**
 What holds in every run of the concurrent bloom index: no tuple is lost or duplicated, the
 "empty page" error cannot happen, no deadlock, and scans do not miss rows.
 */
module BloomRuns {
  import BloomRandom
  import BloomBuild
  import opened BloomSignature
  import opened BloomPage
  import opened BloomConcurrency
  import opened Optional

  // ------------------------------------------------------------- every step keeps Inv

  lemma InitInv(size: nat, s: State)
    requires Init(size, s)
    ensures Inv(size, s)
  {
    NothingPending(s.procs, |s.procs|);
  }

  lemma BeginConserves(s: State, s': State, p: nat, pc: Pc)
    requires Conserved(s) && p < |s.procs| && s.procs[p].Idle?
    requires s' == s.(requested := s.requested + Load(pc)).Goto(p, pc)
    ensures Conserved(s')
  {
    PendingUpdateBelow(s.procs, p, pc, |s.procs|);
    assert Pending(s'.procs) == Pending(s.procs) + Load(pc);
  }

  lemma BeginKeeps(size: nat, s: State, s': State, p: nat)
    requires Inv(size, s) && p < |s.procs| && s.procs[p].Idle? && Begin(s, s', p)
    ensures Inv(size, s')
  {
    var pc := s'.procs[p];
    BeginConserves(s, s', p, pc);
    assert PcOk(s', pc) && MetaLock(pc).Unlocked? && forall b :: PageLock(pc, b).Unlocked?;
    Framed(size, s, s', p, pc);
  }

  /** Storing the tuple of process p on block b keeps the count. */
  lemma StoreConserves(s: State, s': State, p: nat, t: Tuple, b: nat)
    requires Conserved(s) && p < |s.procs| && b < |s.pages| && s.pages[b] != Meta
    requires Load(s.procs[p]) == multiset{t}
    requires s'.procs == s.procs[p := Idle] && s'.requested == s.requested && s'.removed == s.removed
    requires s'.pages == s.pages[b := Live(Usable(s.pages[b]) + [t])]
    ensures Conserved(s')
  {
    var page := s.pages[b];
    var now := Live(Usable(page) + [t]);
    AllTuplesUpdate(s.pages, b, now);
    assert page.Contents() == Usable(page);
    ConservedStep(s, s', p, Idle, page.Contents(), now.Contents(), multiset{});
  }

  /** A page that takes a tuple stays well-formed. */
  lemma AddKeepsPagesOk(size: nat, s: State, s': State, b: nat, t: Tuple)
    requires PagesOk(size, s) && DataBlock(s, b) && Room(size, |Usable(s.pages[b])|)
    requires s'.pages == s.pages[b := Live(Usable(s.pages[b]) + [t])]
    ensures PagesOk(size, s')
  {
    AddFits(size, |Usable(s.pages[b])|);
    assert PageOk(size, s'.pages[b]);
  }

  /** Storing the tuple of process p on block b and finishing. */
  lemma StoreKeeps(size: nat, s: State, s': State, p: nat, t: Tuple, b: nat)
    requires Inv(size, s) && p < |s.procs| && DataBlock(s, b)
    requires Room(size, |Usable(s.pages[b])|) && Load(s.procs[p]) == multiset{t}
    requires PageLock(s.procs[p], b).Exclusive? && (s'.meta != s.meta ==> MetaLock(s.procs[p]).Exclusive?)
    requires s' == s.(pages := s.pages[b := Live(Usable(s.pages[b]) + [t])], meta := s'.meta).Goto(p, Idle)
    requires MetaOk(s')
    ensures Inv(size, s')
  {
    StoreConserves(s, s', p, t, b);
    AddKeepsPagesOk(size, s, s', b, t);
    Framed(size, s, s', p, Idle);
  }

  lemma FirstKeeps(size: nat, s: State, s': State, p: nat, t: Tuple, b: nat)
    requires Inv(size, s) && p < |s.procs| && s.procs[p] == HaveFirst(t, b) && s' == TryFirst(size, s, p, t, b)
    ensures Inv(size, s')
  {
    assert PcOk(s, s.procs[p]);
    if Room(size, |Usable(s.pages[b])|) {
      StoreKeeps(size, s, s', p, t, b);
    } else {
      QuietRelease(size, s, s', p, WantExcl(t, Some(b)));
    }
  }

  lemma ShareKeeps(size: nat, s: State, s': State, p: nat)
    requires Inv(size, s) && Step(size, s, s', p) && s.procs[p].HaveShare?
    ensures Inv(size, s')
  {
    var t := s.procs[p].t;
    if s.meta.nStart < s.meta.nEnd {
      QuietRelease(size, s, s', p, WantFirst(t, s.meta.At(s.meta.nStart)));
    } else {
      QuietRelease(size, s, s', p, WantExcl(t, None));
    }
  }

  /** A waiting process gets its lock on block b. */
  lemma PageLockKeeps(size: nat, s: State, s': State, p: nat, pc: Pc, b: nat)
    requires Inv(size, s) && p < |s.procs| && s' == s.Goto(p, pc) && Load(pc) == Load(s.procs[p])
    requires pc.HaveFirst? || pc.VacPage? || pc.CleanPage? || pc.ScanPage?
    requires pc.b == b && PcOk(s, pc) && MayLockPage(s, p, b, PageLock(pc, b))
    ensures Inv(size, s')
  {
    QuietLock(size, s, s', p, pc, b);
  }

  lemma LoopKeeps(size: nat, s: State, s': State, p: nat, t: Tuple, n: nat)
    requires Inv(size, s) && Step(size, s, s', p) && s.procs[p] == HaveExcl(t, n) && n < s.meta.nEnd
    ensures Inv(size, s')
  {
    KeepsLocks(s, p);
    QuietLock(size, s, s', p, HavePage(t, n, s.meta.At(n)), s.meta.At(n));
  }

  lemma NextKeeps(size: nat, s: State, s': State, p: nat, t: Tuple, n: nat, b: nat)
    requires Inv(size, s) && p < |s.procs| && s.procs[p] == HavePage(t, n, b)
    requires s' == TryNext(size, s, p, t, n, b)
    ensures Inv(size, s')
  {
    assert PcOk(s, s.procs[p]);
    KeepsLocks(s, p);
    if Room(size, |Usable(s.pages[b])|) {
      StoreKeeps(size, s, s', p, t, b);
    } else {
      QuietLock(size, s, s', p, HaveExcl(t, n + 1), 0);
    }
  }

  lemma ExtendKeeps(size: nat, s: State, s': State, p: nat, t: Tuple, n: nat)
    requires Inv(size, s) && p < |s.procs| && s.procs[p] == HaveExcl(t, n)
    requires s' == s.(pages := s.pages + [New]).Goto(p, HaveNew(t, |s.pages|))
    ensures Inv(size, s')
  {
    var b := |s.pages|;
    var pc := HaveNew(t, b);
    assert MayLockMeta(s, p, Exclusive) by { KeepsLocks(s, p); }
    assert Conserved(s') by { ExtendConserves(s, s', p, pc); }
    ExtendKeepsPagesOk(size, s, s');
    assert forall c :: MayLockPage(s, p, c, PageLock(pc, c)) by {
      NobodyHolds(size, s, p, b);
      OneLock(s, p, pc, b);
    }
    Framed(size, s, s', p, pc);
  }

  lemma ExtendConserves(s: State, s': State, p: nat, pc: Pc)
    requires Conserved(s) && p < |s.procs| && s' == s.(pages := s.pages + [New]).Goto(p, pc) && Load(pc) == Load(s.procs[p])
    ensures Conserved(s')
  {
    AllTuplesAppend(s.pages, New);
    ConservedStep(s, s', p, pc, [], [], multiset{});
  }

  lemma ExtendKeepsPagesOk(size: nat, s: State, s': State)
    requires PagesOk(size, s) && MetaOk(s) && FsmOk(s)
    requires s'.pages == s.pages + [New] && s'.meta == s.meta && s'.fsm == s.fsm
    ensures PagesOk(size, s') && MetaOk(s') && FsmOk(s')
  {
    forall b | 1 <= b < |s'.pages| ensures PageOk(size, s'.pages[b]) {
      if b < |s.pages| { assert PageOk(size, s.pages[b]); }
    }
  }

  lemma OneLock(s: State, p: nat, pc: Pc, b: nat)
    requires pc.HaveNew? && pc.b == b && MayLockPage(s, p, b, Exclusive)
    ensures forall c :: MayLockPage(s, p, c, PageLock(pc, c))
  {}

  /** A block from the free space map that can be locked and is free is used. */
  lemma RecycleKeeps(size: nat, s: State, s': State, p: nat, t: Tuple, n: nat, b: nat)
    requires Inv(size, s) && p < |s.procs| && s.procs[p] == HaveExcl(t, n) && b in s.fsm
    requires MayLockPage(s, p, b, Exclusive) && s.Page(b).Free() && s' == s.(fsm := s.fsm - {b}).Goto(p, HaveNew(t, b))
    ensures Inv(size, s')
  {
    assert MayLockMeta(s, p, Exclusive) by { KeepsLocks(s, p); }
    QuietLock(size, s, s', p, HaveNew(t, b), b);
  }

  /** Any other block from the free space map is dropped. */
  lemma PassOverKeeps(size: nat, s: State, s': State, p: nat, t: Tuple, n: nat, b: nat)
    requires Inv(size, s) && p < |s.procs| && s.procs[p] == HaveExcl(t, n) && s' == s.(fsm := s.fsm - {b})
    ensures Inv(size, s')
  {
    assert MayLockMeta(s, p, Exclusive) by { KeepsLocks(s, p); }
    assert s' == s.(fsm := s'.fsm).Goto(p, HaveExcl(t, n));
    QuietLock(size, s, s', p, HaveExcl(t, n), 0);
  }

  lemma NewBufferKeeps(size: nat, s: State, s': State, p: nat, t: Tuple, n: nat)
    requires Inv(size, s) && p < |s.procs| && s.procs[p] == HaveExcl(t, n) && NewBuffer(s, s', p, t, n)
    ensures Inv(size, s')
  {
    if s' == s.(pages := s.pages + [New]).Goto(p, HaveNew(t, |s.pages|)) {
      ExtendKeeps(size, s, s', p, t, n);
    } else {
      var b :| b in s.fsm &&
          s' == if MayLockPage(s, p, b, Exclusive) && s.Page(b).Free()
                then s.(fsm := s.fsm - {b}).Goto(p, HaveNew(t, b))
                else s.(fsm := s.fsm - {b});
      if MayLockPage(s, p, b, Exclusive) && s.Page(b).Free() {
        RecycleKeeps(size, s, s', p, t, n, b);
      } else {
        PassOverKeeps(size, s, s', p, t, n, b);
      }
    }
  }

  /** Nobody holds a lock on a block behind the end of the file. */
  lemma NobodyHolds(size: nat, s: State, p: nat, b: nat)
    requires Inv(size, s) && b >= |s.pages|
    ensures MayLockPage(s, p, b, Exclusive)
  {
    forall q | 0 <= q < |s.procs| ensures PageLock(s.procs[q], b).Unlocked? {
      assert PcOk(s, s.procs[q]);
    }
  }

  /** A page from BloomNewBuffer holds no tuple, and the tuple fits on it. */
  lemma FillNewKeeps(size: nat, s: State, s': State, p: nat, t: Tuple, b: nat)
    requires Inv(size, s) && Room(size, 0) && p < |s.procs| && s.procs[p] == HaveNew(t, b)
    requires s' == FillNew(size, s, p, t, b)
    ensures Inv(size, s')
  {
    assert PcOk(s, s.procs[p]);
    assert Usable(s.pages[b]) + [t] == [t];
    StoreKeeps(size, s, s', p, t, b);
  }

  lemma VacuumBlockConserves(s: State, s': State, p: nat, b: nat, dead: set<nat>, pc: Pc)
    requires Conserved(s) && p < |s.procs| && b < |s.pages|
    requires Load(s.procs[p]) == multiset{} && Load(pc) == multiset{}
    requires s'.procs == s.procs[p := pc] && s'.pages == s.pages[b := VacuumPage(s.pages[b], dead)]
    requires s'.requested == s.requested
    requires s'.removed == s.removed + multiset(Dropped(s.pages[b].Contents(), dead))
    ensures Conserved(s')
  {
    var page := s.pages[b];
    AllTuplesUpdate(s.pages, b, VacuumPage(page, dead));
    VacuumPageConserves(page, dead);
    ConservedStep(s, s', p, pc, page.Contents(), VacuumPage(page, dead).Contents(),
                  multiset(Dropped(page.Contents(), dead)));
  }

  lemma VacuumKeepsPagesOk(size: nat, s: State, s': State, b: nat, dead: set<nat>)
    requires PagesOk(size, s) && DataBlock(s, b) && s'.pages == s.pages[b := VacuumPage(s.pages[b], dead)]
    ensures PagesOk(size, s')
  {
    var page := s.pages[b];
    assert PageOk(size, page);
    if page.Live? {
      assert |Kept(page.tuples, dead)| * size <= |page.tuples| * size;
    }
    assert PageOk(size, s'.pages[b]);
  }

  lemma SamePcOk(s: State, s': State, pc: Pc)
    requires pc.VacScan? && PcOk(s, pc) && |s'.pages| == |s.pages|
    ensures PcOk(s', pc) && MetaLock(pc).Unlocked? && forall c :: PageLock(pc, c).Unlocked?
  {}

  lemma CleanedKeeps(size: nat, s: State, s': State, p: nat, b: nat, dead: set<nat>, pc: Pc)
    requires Inv(size, s) && p < |s.procs| && DataBlock(s, b) && PageLock(s.procs[p], b).Exclusive?
    requires Load(s.procs[p]) == multiset{} && pc.VacScan? && PcOk(s, pc)
    requires s' == s.(pages := s.pages[b := VacuumPage(s.pages[b], dead)],
                      removed := s.removed + multiset(Dropped(s.pages[b].Contents(), dead))).Goto(p, pc)
    ensures Inv(size, s')
  {
    VacuumBlockConserves(s, s', p, b, dead, pc);
    VacuumKeepsPagesOk(size, s, s', b, dead);
    SamePcOk(s, s', pc);
    Framed(size, s, s', p, pc);
  }

  lemma VacuumBlockKeeps(size: nat, s: State, s': State, p: nat, b: nat, n: nat, dead: set<nat>, list: seq<nat>)
    requires Inv(size, s) && p < |s.procs| && s.procs[p] == VacPage(b, n, dead, list)
    requires s' == VacuumBlock(size, s, p, b, n, dead, list)
    ensures Inv(size, s')
  {
    assert PcOk(s, s.procs[p]);
    CleanedKeeps(size, s, s', p, b, dead, s'.procs[p]);
  }

  lemma WriteListKeeps(size: nat, s: State, s': State, p: nat, list: seq<nat>)
    requires Inv(size, s) && p < |s.procs| && s.procs[p] == VacMeta(list) && s' == WriteList(s, p, list)
    ensures Inv(size, s')
  {
    assert PcOk(s, s.procs[p]);
    ConservedStep(s, s', p, Idle, [], [], multiset{});
    Framed(size, s, s', p, Idle);
  }

  lemma WantShareKeeps(size: nat, s: State, s': State, p: nat)
    requires Inv(size, s) && Step(size, s, s', p) && s.procs[p].WantShare?
    ensures Inv(size, s')
  {
    QuietLock(size, s, s', p, HaveShare(s.procs[p].t), 0);
  }

  lemma WantFirstKeeps(size: nat, s: State, s': State, p: nat)
    requires Inv(size, s) && Step(size, s, s', p) && s.procs[p].WantFirst?
    ensures Inv(size, s')
  {
    var pc := s.procs[p];
    assert PcOk(s, pc);
    PageLockKeeps(size, s, s', p, HaveFirst(pc.t, pc.b), pc.b);
  }

  lemma WantExclKeeps(size: nat, s: State, s': State, p: nat)
    requires Inv(size, s) && Step(size, s, s', p) && s.procs[p].WantExcl?
    ensures Inv(size, s')
  {
    var pc := s.procs[p];
    QuietLock(size, s, s', p, HaveExcl(pc.t, FirstTry(s.meta, pc.tried)), 0);
  }

  lemma VacScanKeeps(size: nat, s: State, s': State, p: nat)
    requires Inv(size, s) && Step(size, s, s', p) && s.procs[p].VacScan? && s.procs[p].b < s.procs[p].npages
    ensures Inv(size, s')
  {
    var pc := s.procs[p];
    assert PcOk(s, pc);
    PageLockKeeps(size, s, s', p, VacPage(pc.b, pc.npages, pc.dead, pc.list), pc.b);
  }

  lemma VacDoneKeeps(size: nat, s: State, s': State, p: nat)
    requires Inv(size, s) && Step(size, s, s', p) && s.procs[p].VacScan? && s.procs[p].b >= s.procs[p].npages
    ensures Inv(size, s')
  {
    var pc := s.procs[p];
    assert PcOk(s, pc);
    QuietLock(size, s, s', p, VacMeta(pc.list), 0);
  }

  lemma CleanScanKeeps(size: nat, s: State, s': State, p: nat)
    requires Inv(size, s) && Step(size, s, s', p) && s.procs[p].CleanScan?
    ensures Inv(size, s')
  {
    var pc := s.procs[p];
    assert PcOk(s, pc);
    if pc.b < pc.npages {
      PageLockKeeps(size, s, s', p, CleanPage(pc.b, pc.npages), pc.b);
    } else {
      ReleaseKeeps(size, s, s', p, Idle);
    }
  }

  lemma CleanPageKeeps(size: nat, s: State, s': State, p: nat, b: nat, n: nat)
    requires Inv(size, s) && p < |s.procs| && s.procs[p] == CleanPage(b, n)
    requires s' == s.(fsm := s'.fsm).Goto(p, CleanScan(b + 1, n)) && s.fsm <= s'.fsm <= s.fsm + {b}
    ensures Inv(size, s')
  {
    assert PcOk(s, s.procs[p]);
    assert FsmOk(s');
    QuietRelease(size, s, s', p, CleanScan(b + 1, n));
  }

  /** A scanning process gives up its lock, or had none. */
  lemma ReleaseKeeps(size: nat, s: State, s': State, p: nat, pc: Pc)
    requires Inv(size, s) && p < |s.procs| && s' == s.Goto(p, pc) && Load(s.procs[p]) == multiset{}
    requires pc.Idle? || pc.Scanned? || (pc.Scan? && PcOk(s, pc))
    ensures Inv(size, s')
  {
    QuietRelease(size, s, s', p, pc);
  }

  lemma ScanLockKeeps(size: nat, s: State, s': State, p: nat)
    requires Inv(size, s) && Step(size, s, s', p) && s.procs[p].Scan? && s.procs[p].b < s.procs[p].npages
    ensures Inv(size, s')
  {
    var pc := s.procs[p];
    assert PcOk(s, pc);
    PageLockKeeps(size, s, s', p, ScanPage(pc.b, pc.npages, pc.want, pc.found), pc.b);
  }

  lemma ScanDoneKeeps(size: nat, s: State, s': State, p: nat)
    requires Inv(size, s) && Step(size, s, s', p) && s.procs[p].Scan? && s.procs[p].b >= s.procs[p].npages
    ensures Inv(size, s')
  {
    ReleaseKeeps(size, s, s', p, Scanned(s.procs[p].want, s.procs[p].found));
  }

  lemma ScannedKeeps(size: nat, s: State, s': State, p: nat)
    requires Inv(size, s) && Step(size, s, s', p) && s.procs[p].Scanned?
    ensures Inv(size, s')
  {
    ReleaseKeeps(size, s, s', p, Idle);
  }

  lemma ScanPageKeeps(size: nat, s: State, s': State, p: nat, b: nat, n: nat, want: seq<Word>, found: set<nat>, all: set<nat>)
    requires Inv(size, s) && p < |s.procs| && s.procs[p] == ScanPage(b, n, want, found)
    requires s' == s.Goto(p, Scan(b + 1, n, want, all))
    ensures Inv(size, s')
  {
    assert PcOk(s, s.procs[p]);
    ReleaseKeeps(size, s, s', p, Scan(b + 1, n, want, all));
  }

  lemma InsertKeepsInv(size: nat, s: State, s': State, p: nat)
    requires Inv(size, s) && Room(size, 0) && Step(size, s, s', p)
    requires var pc := s.procs[p];
      pc.WantShare? || pc.HaveShare? || pc.WantFirst? || pc.HaveFirst? || pc.WantExcl? || pc.HaveExcl? || pc.HavePage? || pc.HaveNew?
    ensures Inv(size, s')
  {
    match s.procs[p]
    case WantShare(_) => WantShareKeeps(size, s, s', p);
    case HaveShare(_) => ShareKeeps(size, s, s', p);
    case WantFirst(_, _) => WantFirstKeeps(size, s, s', p);
    case HaveFirst(t, b) => FirstKeeps(size, s, s', p, t, b);
    case WantExcl(_, _) => WantExclKeeps(size, s, s', p);
    case HaveExcl(t, n) =>
      if n < s.meta.nEnd { LoopKeeps(size, s, s', p, t, n); } else { NewBufferKeeps(size, s, s', p, t, n); }
    case HavePage(t, n, b) => NextKeeps(size, s, s', p, t, n, b);
    case HaveNew(t, b) => FillNewKeeps(size, s, s', p, t, b);
    case _ =>
  }

  lemma VacuumKeepsInv(size: nat, s: State, s': State, p: nat)
    requires Inv(size, s) && Step(size, s, s', p)
    requires var pc := s.procs[p]; pc.VacScan? || pc.VacPage? || pc.VacMeta? || pc.CleanScan? || pc.CleanPage?
    ensures Inv(size, s')
  {
    match s.procs[p]
    case VacScan(b, n, _, _) => if b < n { VacScanKeeps(size, s, s', p); } else { VacDoneKeeps(size, s, s', p); }
    case VacPage(b, n, dead, list) => VacuumBlockKeeps(size, s, s', p, b, n, dead, list);
    case VacMeta(list) => WriteListKeeps(size, s, s', p, list);
    case CleanScan(_, _) => CleanScanKeeps(size, s, s', p);
    case CleanPage(b, n) => CleanPageKeeps(size, s, s', p, b, n);
    case _ =>
  }

  lemma ScanKeepsInv(size: nat, s: State, s': State, p: nat)
    requires Inv(size, s) && Step(size, s, s', p)
    requires var pc := s.procs[p]; pc.Scan? || pc.ScanPage? || pc.Scanned?
    ensures Inv(size, s')
  {
    match s.procs[p]
    case Scan(b, n, _, _) => if b < n { ScanLockKeeps(size, s, s', p); } else { ScanDoneKeeps(size, s, s', p); }
    case ScanPage(b, n, want, found) =>
      ScanPageKeeps(size, s, s', p, b, n, want, found, found + Hits(s.Page(b), want));
    case Scanned(_, _) => ScannedKeeps(size, s, s', p);
    case _ =>
  }

  lemma StepKeepsInv(size: nat, s: State, s': State, p: nat)
    requires Inv(size, s) && Room(size, 0) && Step(size, s, s', p)
    ensures Inv(size, s')
  {
    var pc := s.procs[p];
    if pc.Idle? {
      BeginKeeps(size, s, s', p);
    } else if pc.VacScan? || pc.VacPage? || pc.VacMeta? || pc.CleanScan? || pc.CleanPage? {
      VacuumKeepsInv(size, s, s', p);
    } else if pc.Scan? || pc.ScanPage? || pc.Scanned? {
      ScanKeepsInv(size, s, s', p);
    } else {
      InsertKeepsInv(size, s, s', p);
    }
  }

  // ------------------------------------------------------------------------------ runs

  /** The file that blbuild writes, with nobody active, is an initial state. */
  lemma BuiltIsInit(opts: Options, s: State, heap: seq<Tuple>)
    requires opts.Valid() && |s.pages| >= 1 && s.pages[0] == Meta
    requires BloomBuild.Packed(TupleSize(opts), s.pages[1..]) && BloomBuild.Flatten(s.pages[1..]) == heap
    requires s.meta.nStart == 0 && s.meta.nEnd == 0 && |s.meta.notFull| == META_BLOCKS && s.fsm == {}
    requires s.requested == multiset(heap) && s.removed == multiset{}
    requires forall q :: 0 <= q < |s.procs| ==> s.procs[q].Idle?
    ensures Init(TupleSize(opts), s)
  {
    BuiltPages(TupleSize(opts), s.pages);
    BuiltTuples(s.pages, heap);
  }

  lemma BuiltPages(size: nat, pages: seq<Page>)
    requires |pages| >= 1 && BloomBuild.Packed(size, pages[1..])
    ensures forall b :: 1 <= b < |pages| ==> PageOk(size, pages[b])
  {
    forall b | 1 <= b < |pages| ensures PageOk(size, pages[b]) { assert pages[b] == pages[1..][b - 1]; }
  }

  lemma BuiltTuples(pages: seq<Page>, heap: seq<Tuple>)
    requires |pages| >= 1 && pages[0] == Meta && BloomBuild.Flatten(pages[1..]) == heap
    ensures AllTuples(pages) == multiset(heap)
  {
    var data := pages[1..];
    BloomBuild.FlattenAllTuples(data);
    MetaFirst(data, |data|);
    assert pages == [Meta] + data;
  }

  lemma {:induction false} MetaFirst(data: seq<Page>, hi: nat)
    requires hi <= |data|
    ensures TuplesBelow([Meta] + data, hi + 1) == TuplesBelow(data, hi)
  {
    var all := [Meta] + data;
    assert all[hi] == if hi == 0 then Meta else data[hi - 1];
    assert TuplesBelow(all, hi + 1) == TuplesBelow(all, hi) + multiset(all[hi].Contents());
    if hi > 0 { MetaFirst(data, hi - 1); }
  }

  /** A run: states linked by steps; who[i] is the process that takes step i. */
  ghost predicate IsRun(size: nat, run: seq<State>, who: seq<nat>) {
    |run| == |who| + 1 && forall i :: 0 <= i < |who| ==> Step(size, run[i], run[i + 1], who[i])
  }

  /** Everything the invariant says, in every state of every run of an index with allowed options. */
  lemma {:induction false} RunsKeepInv(opts: Options, run: seq<State>, who: seq<nat>, i: nat)
    requires opts.Valid() && IsRun(TupleSize(opts), run, who)
    requires Init(TupleSize(opts), run[0]) && i < |run|
    ensures Inv(TupleSize(opts), run[i])
  {
    if i == 0 {
      InitInv(TupleSize(opts), run[0]);
    } else {
      RunsKeepInv(opts, run, who, i - 1);
      EmptyPageHasRoom(opts);
      assert Step(TupleSize(opts), run[i - 1], run[i - 1 + 1], who[i - 1]);
      StepKeepsInv(TupleSize(opts), run[i - 1], run[i], who[i - 1]);
    }
  }

  /**
   No interleaving loses or duplicates a tuple: when nothing is under way, the pages hold
   exactly what was built and inserted minus what VACUUM removed.
   */
  lemma NothingLost(opts: Options, run: seq<State>, who: seq<nat>, i: nat)
    requires opts.Valid() && IsRun(TupleSize(opts), run, who)
    requires Init(TupleSize(opts), run[0]) && i < |run|
    requires forall q :: 0 <= q < |run[i].procs| ==> run[i].procs[q].Idle?
    ensures AllTuples(run[i].pages) == run[i].requested - run[i].removed
    ensures run[i].removed <= run[i].requested
  {
    RunsKeepInv(opts, run, who, i);
    NothingPending(run[i].procs, |run[i].procs|);
  }

  /** The error branches for a tuple that does not fit on an empty page are never reached. */
  lemma NeverFails(opts: Options, run: seq<State>, who: seq<nat>, i: nat, q: nat)
    requires opts.Valid() && IsRun(TupleSize(opts), run, who)
    requires Init(TupleSize(opts), run[0]) && i < |run| && q < |run[i].procs|
    ensures !run[i].procs[q].Failed?
  {
    RunsKeepInv(opts, run, who, i);
    assert PcOk(run[i], run[i].procs[q]);
  }

  // -------------------------------------------------------------------------- deadlock

  predicate HoldsPage(pc: Pc) {
    pc.HaveFirst? || pc.HavePage? || pc.HaveNew? || pc.VacPage? || pc.CleanPage? || pc.ScanPage?
  }

  /** Locks are always taken metapage first: a step of a run that takes it starts without any page lock. */
  lemma MetapageFirst(size: nat, run: seq<State>, who: seq<nat>, i: nat, b: nat)
    requires IsRun(size, run, who) && i < |who| && who[i] < |run[i].procs| == |run[i + 1].procs|
    ensures var before, after := run[i].procs[who[i]], run[i + 1].procs[who[i]];
      MetaLock(before).Unlocked? && !MetaLock(after).Unlocked? ==> PageLock(before, b).Unlocked?
  {
    assert Step(size, run[i], run[i + 1], who[i]);
  }

  ghost predicate CanStep(size: nat, s: State, p: nat) {
    exists s' :: Step(size, s, s', p)
  }

  lemma PageHolderSteps(size: nat, s: State, p: nat)
    requires p < |s.procs| && (HoldsPage(s.procs[p]) || s.procs[p].HaveShare? || s.procs[p].VacMeta?)
    ensures CanStep(size, s, p)
  {
    var pc := s.procs[p];
    var s' :=
      if pc.HaveFirst? then TryFirst(size, s, p, pc.t, pc.b)
      else if pc.HavePage? then TryNext(size, s, p, pc.t, pc.n, pc.b)
      else if pc.HaveNew? then FillNew(size, s, p, pc.t, pc.b)
      else if pc.VacPage? then VacuumBlock(size, s, p, pc.b, pc.npages, pc.dead, pc.list)
      else if pc.VacMeta? then WriteList(s, p, pc.list)
      else if pc.CleanPage? then
        (if s.Page(pc.b).Free() then s.(fsm := s.fsm + {pc.b}) else s).Goto(p, CleanScan(pc.b + 1, pc.npages))
      else if pc.ScanPage? then s.Goto(p, Scan(pc.b + 1, pc.npages, pc.want, pc.found + Hits(s.Page(pc.b), pc.want)))
      else s.Goto(p, if s.meta.nStart < s.meta.nEnd then WantFirst(pc.t, s.meta.At(s.meta.nStart))
                     else WantExcl(pc.t, None));
    assert Step(size, s, s', p);
  }

  /** While nobody holds a page, the holder of the exclusive metapage lock goes on. */
  lemma RetryLoopSteps(size: nat, s: State, p: nat)
    requires p < |s.procs| && s.procs[p].HaveExcl?
    requires forall q :: 0 <= q < |s.procs| ==> !HoldsPage(s.procs[q])
    ensures CanStep(size, s, p)
  {
    var pc := s.procs[p];
    var s' := s.(pages := s.pages + [New]).Goto(p, HaveNew(pc.t, |s.pages|));
    if pc.n < s.meta.nEnd {
      var b := s.meta.At(pc.n);
      assert MayLockPage(s, p, b, Exclusive);
      s' := s.Goto(p, HavePage(pc.t, pc.n, b));
    } else if s.fsm != {} {
      var b :| b in s.fsm;
      s' := if s.Page(b).Free() then s.(fsm := s.fsm - {b}).Goto(p, HaveNew(pc.t, b)) else s.(fsm := s.fsm - {b});
      assert MayLockPage(s, p, b, Exclusive);
      assert NewBuffer(s, s', p, pc.t, pc.n);
    }
    assert Step(size, s, s', p);
  }

  /** With no lock held by anyone, every waiting process can go on. */
  lemma UnlockedSteps(size: nat, s: State, p: nat)
    requires p < |s.procs| && !s.procs[p].Idle? && !s.procs[p].Failed? && !s.procs[p].HaveExcl?
    requires forall q :: 0 <= q < |s.procs| ==> !HoldsPage(s.procs[q]) && MetaLock(s.procs[q]).Unlocked?
    ensures CanStep(size, s, p)
  {
    var pc := s.procs[p];
    assert MayLockMeta(s, p, Exclusive) && MayLockMeta(s, p, Shared);
    var s' :=
      if pc.WantShare? then s.Goto(p, HaveShare(pc.t))
      else if pc.WantFirst? then s.Goto(p, HaveFirst(pc.t, pc.b))
      else if pc.WantExcl? then s.Goto(p, HaveExcl(pc.t, FirstTry(s.meta, pc.tried)))
      else if pc.VacScan? then
        s.Goto(p, if pc.b < pc.npages then VacPage(pc.b, pc.npages, pc.dead, pc.list) else VacMeta(pc.list))
      else if pc.CleanScan? then s.Goto(p, if pc.b < pc.npages then CleanPage(pc.b, pc.npages) else Idle)
      else if pc.Scan? then
        s.Goto(p, if pc.b < pc.npages then ScanPage(pc.b, pc.npages, pc.want, pc.found) else Scanned(pc.want, pc.found))
      else s.Goto(p, Idle);
    assert Step(size, s, s', p);
  }

  /** No deadlock: as long as some operation is under way, one of them can take a step. */
  lemma NoDeadlock(opts: Options, run: seq<State>, who: seq<nat>, i: nat, p: nat)
    requires opts.Valid() && IsRun(TupleSize(opts), run, who)
    requires Init(TupleSize(opts), run[0]) && i < |run| && p < |run[i].procs| && !run[i].procs[p].Idle?
    ensures exists q :: 0 <= q < |run[i].procs| && !run[i].procs[q].Idle? && CanStep(TupleSize(opts), run[i], q)
  {
    var size, s := TupleSize(opts), run[i];
    NeverFails(opts, run, who, i, p);
    if q :| 0 <= q < |s.procs| && (HoldsPage(s.procs[q]) || s.procs[q].HaveShare? || s.procs[q].VacMeta?) {
      PageHolderSteps(size, s, q);
    } else if q :| 0 <= q < |s.procs| && s.procs[q].HaveExcl? {
      RetryLoopSteps(size, s, q);
    } else {
      UnlockedSteps(size, s, p);
    }
  }

  // ----------------------------------------------------------------------------- scans

  ghost predicate OnPage(s: State, b: nat, t: Tuple) {
    b < |s.pages| && t in s.pages[b].Contents()
  }

  /** No vacuum under way in this state has t on its list of dead tuples. */
  ghost predicate Spared(s: State, t: Tuple) {
    forall q :: 0 <= q < |s.procs| && s.procs[q].VacPage? ==> t.tid !in s.procs[q].dead
  }

  /** Steps that store or remove nothing leave the pages as they are, but for new ones at the end. */
  lemma PagesStay(size: nat, s: State, s': State, p: nat)
    requires Step(size, s, s', p)
    requires !s.procs[p].HaveFirst? && !s.procs[p].HavePage? && !s.procs[p].HaveNew? && !s.procs[p].VacPage?
    ensures s.pages <= s'.pages
  {}

  lemma StoreStays(size: nat, s: State, s': State, p: nat, b: nat, t: Tuple)
    requires Inv(size, s) && Step(size, s, s', p) && OnPage(s, b, t)
    requires s.procs[p].HaveFirst? || s.procs[p].HavePage? || s.procs[p].HaveNew?
    ensures OnPage(s', b, t)
  {
    var pc := s.procs[p];
    assert PcOk(s, pc);
    PutKeeps(s, s', b, t, pc.b, if pc.HaveNew? then Live([pc.t]) else Live(Usable(s.pages[pc.b]) + [pc.t]));
  }

  /** A tuple that no vacuum removes stays on its page. */
  lemma StaysOnPage(size: nat, s: State, s': State, p: nat, b: nat, t: Tuple)
    requires Inv(size, s) && Step(size, s, s', p) && OnPage(s, b, t) && Spared(s, t)
    ensures OnPage(s', b, t)
  {
    var pc := s.procs[p];
    if pc.HaveFirst? || pc.HavePage? || pc.HaveNew? {
      StoreStays(size, s, s', p, b, t);
    } else if pc.VacPage? {
      assert PcOk(s, pc);
      SparedByVacuum(s.pages[pc.b], pc.dead, t);
      PutKeeps(s, s', b, t, pc.b, VacuumPage(s.pages[pc.b], pc.dead));
    } else {
      PagesStay(size, s, s', p);
    }
  }

  lemma SparedByVacuum(page: Page, dead: set<nat>, t: Tuple)
    requires t.tid !in dead
    ensures t in page.Contents() ==> t in VacuumPage(page, dead).Contents()
  {
    KeptMember(page.Contents(), dead, t);
    assert VacuumPage(page, dead).Contents() == Kept(page.Contents(), dead);
  }

  lemma PutKeeps(s: State, s': State, b: nat, t: Tuple, c: nat, page: Page)
    requires OnPage(s, b, t) && c < |s.pages|
    requires s'.pages == s.pages || s'.pages == s.pages[c := page]
    requires t in s.pages[c].Contents() ==> t in page.Contents()
    ensures OnPage(s', b, t)
  {}

  ghost predicate Finished(s: State, p: nat) {
    p < |s.procs| && s.procs[p].Scanned?
  }

  /** How far the scan of process p is with the tuple t on block b. */
  ghost predicate OnCourse(s: State, p: nat, b: nat, t: Tuple, want: seq<Word>) {
    p < |s.procs| &&
    match s.procs[p]
    case Scan(at, n, w, found) => w == want && (t.tid in found || (at <= b < n && OnPage(s, b, t)))
    case ScanPage(at, n, w, found) => w == want && (t.tid in found || (at <= b < n && OnPage(s, b, t)))
    case Scanned(w, found) => w == want && t.tid in found
    case _ => false
  }

  /** A step of another process does not disturb the scan. */
  lemma CourseOfOthers(s: State, s': State, p: nat, b: nat, t: Tuple, want: seq<Word>)
    requires OnCourse(s, p, b, t, want) && p < |s'.procs| && s'.procs[p] == s.procs[p]
    requires OnPage(s, b, t) ==> OnPage(s', b, t)
    ensures OnCourse(s', p, b, t, want)
  {}

  /** The scan's own step: it visits the page of t or leaves t for later. */
  lemma CourseOfOwn(size: nat, s: State, s': State, p: nat, b: nat, t: Tuple, want: seq<Word>)
    requires Step(size, s, s', p) && OnCourse(s, p, b, t, want) && SignMatch(want, t.sign)
    ensures OnCourse(s', p, b, t, want) || Finished(s, p)
  {
    match s.procs[p]
    case ScanPage(at, n, w, found) =>
      if at == b && OnPage(s, b, t) { assert t.tid in Hits(s.Page(b), want); }
    case _ =>
  }

  lemma OnlyMoverMoves(size: nat, s: State, s': State, mover: nat, p: nat)
    requires Step(size, s, s', mover) && p < |s.procs| && mover != p
    ensures p < |s'.procs| && s'.procs[p] == s.procs[p]
  {}

  lemma CourseStep(size: nat, s: State, s': State, mover: nat, p: nat, b: nat, t: Tuple, want: seq<Word>)
    requires Inv(size, s) && Step(size, s, s', mover)
    requires Spared(s, t) && SignMatch(want, t.sign) && !(mover == p && Finished(s, p))
    requires OnCourse(s, p, b, t, want)
    ensures OnCourse(s', p, b, t, want)
  {
    if mover == p {
      CourseOfOwn(size, s, s', p, b, t, want);
    } else {
      OnlyMoverMoves(size, s, s', mover, p);
      if OnPage(s, b, t) { StaysOnPage(size, s, s', mover, b, t); }
      CourseOfOthers(s, s', p, b, t, want);
    }
  }

  /** From state `from` to i no vacuum has t as dead, and the scan of p is not closed. */
  ghost predicate Undisturbed(run: seq<State>, who: seq<nat>, from: nat, i: nat, p: nat, t: Tuple)
    requires i < |run| && |run| == |who| + 1
  {
    forall j :: from <= j < i ==> Spared(run[j], t) && !(who[j] == p && Finished(run[j], p))
  }

  /** What CourseStep says of step j of a run. */
  lemma RunCourseStep(opts: Options, run: seq<State>, who: seq<nat>, j: nat, p: nat, b: nat, t: Tuple, want: seq<Word>)
    requires j < |who| && |run| == |who| + 1
    ensures opts.Valid() && IsRun(TupleSize(opts), run, who) && Init(TupleSize(opts), run[0]) && SignMatch(want, t.sign) &&
            Spared(run[j], t) && !(who[j] == p && Finished(run[j], p)) && OnCourse(run[j], p, b, t, want)
            ==> OnCourse(run[j + 1], p, b, t, want)
  {
    if opts.Valid() && IsRun(TupleSize(opts), run, who) && Init(TupleSize(opts), run[0]) && SignMatch(want, t.sign) &&
       Spared(run[j], t) && !(who[j] == p && Finished(run[j], p)) && OnCourse(run[j], p, b, t, want)
    {
      assert Step(TupleSize(opts), run[j], run[j + 1], who[j]);
      RunsKeepInv(opts, run, who, j);
      CourseStep(TupleSize(opts), run[j], run[j + 1], who[j], p, b, t, want);
    }
  }

  lemma {:induction false} StaysOnCourse(run: seq<State>, from: nat, i: nat, p: nat, b: nat, t: Tuple, want: seq<Word>)
    requires from <= i < |run| && OnCourse(run[from], p, b, t, want)
    requires forall j :: from <= j < i && OnCourse(run[j], p, b, t, want) ==> OnCourse(run[j + 1], p, b, t, want)
    ensures OnCourse(run[i], p, b, t, want)
  {
    if i > from {
      StaysOnCourse(run, from, i - 1, p, b, t, want);
      assert OnCourse(run[i - 1], p, b, t, want) ==> OnCourse(run[i - 1 + 1], p, b, t, want);
    }
  }

  /**
   Scans under concurrency: a row that was stored when the scan began, whose signature contains
   the scan's, and that no vacuum removes meanwhile, is in the result, whatever else happens.
   */
  lemma ScanFinds(opts: Options, run: seq<State>, who: seq<nat>, from: nat, i: nat,
                  p: nat, b: nat, t: Tuple, want: seq<Word>)
    requires opts.Valid() && IsRun(TupleSize(opts), run, who) && Init(TupleSize(opts), run[0])
    requires from <= i < |run| && Undisturbed(run, who, from, i, p, t) && SignMatch(want, t.sign)
    requires p < |run[from].procs| && run[from].procs[p] == Scan(1, |run[from].pages|, want, {})
    requires 1 <= b && OnPage(run[from], b, t)
    ensures Finished(run[i], p) ==> t.tid in run[i].procs[p].found
  {
    assert OnCourse(run[from], p, b, t, want);
    forall j | from <= j < i && OnCourse(run[j], p, b, t, want) ensures OnCourse(run[j + 1], p, b, t, want) {
      RunCourseStep(opts, run, who, j, p, b, t, want);
    }
    StaysOnCourse(run, from, i, p, b, t, want);
  }

  /** The same in terms of rows: every scan key's hash equals the hash of the row's column. */
  lemma ScanFindsRow(opts: Options, run: seq<State>, who: seq<nat>, from: nat, i: nat, p: nat, b: nat,
                     t: Tuple, want: seq<Word>, row: seq<Option<BloomRandom.U32>>, keys: seq<ScanKey>)
    requires opts.Valid() && IsRun(TupleSize(opts), run, who) && Init(TupleSize(opts), run[0])
    requires from <= i < |run| && Undisturbed(run, who, from, i, p, t)
    requires p < |run[from].procs| && run[from].procs[p] == Scan(1, |run[from].pages|, want, {})
    requires 1 <= b && OnPage(run[from], b, t)
    requires |want| == |t.sign| && RowSignable(opts, row) && Bits(t.sign) == RowBits(opts, row)
    requires RowMatches(row, keys) && KeysSignable(opts, keys) && Bits(want) == KeyBits(opts, keys)
    ensures Finished(run[i], p) ==> t.tid in run[i].procs[p].found
  {
    RowSignMatch(opts, t.sign, want, row, keys);
    ScanFinds(opts, run, who, from, i, p, b, t, want);
  }

  lemma RowSignMatch(opts: Options, sign: seq<Word>, want: seq<Word>, row: seq<Option<BloomRandom.U32>>, keys: seq<ScanKey>)
    requires opts.Valid() && |want| == |sign| && RowSignable(opts, row) && Bits(sign) == RowBits(opts, row)
    requires RowMatches(row, keys) && KeysSignable(opts, keys) && Bits(want) == KeyBits(opts, keys)
    ensures SignMatch(want, sign)
  {
    NoFalseNegative(opts, row, keys);
    WordwiseContains(sign, want);
  }
}
