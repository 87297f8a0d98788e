/** The allocator of mmap.c as a state machine: any number of threads interleave the steps of
    backtrace_alloc and backtrace_free around a lock that is only ever tried. */
module AllocProtocol {
  import Bits
  import opened FreeList
  import opened Options

  const LARGE: nat := 16 * 4096

  // ----- bytes and blocks -----

  /** How often the byte at x occurs in a block, in a list of blocks. */
  function Covers(b: Block, x: nat): nat {
    if b.addr <= x < b.addr + b.size then 1 else 0
  }

  function In(bs: seq<Block>, x: nat): nat {
    if bs == [] then 0 else Covers(bs[0], x) + In(bs[1..], x)
  }

  function AsSeq(b: Option<Block>): seq<Block> {
    if b.None? then [] else [b.value]
  }

  lemma {:induction false} InWithout(bs: seq<Block>, i: nat, x: nat)
    requires i < |bs|
    ensures In(Without(bs, i), x) + Covers(bs[i], x) == In(bs, x)
    decreases |bs|
  {
    if i == 0 {
      assert Without(bs, 0) == bs[1..];
    } else {
      InWithout(bs[1..], i - 1, x);
      assert Without(bs, i) == [bs[0]] + Without(bs[1..], i - 1);
    }
  }

  lemma InCons(b: Block, bs: seq<Block>, x: nat)
    ensures In([b] + bs, x) == Covers(b, x) + In(bs, x)
  {
    assert ([b] + bs)[1..] == bs;
  }

  lemma {:induction false} InConcat(a: seq<Block>, b: seq<Block>, x: nat)
    ensures In(a + b, x) == In(a, x) + In(b, x)
    decreases |a|
  {
    if a == [] {
      assert a + b == b;
    } else {
      InConcat(a[1..], b, x);
      assert a + b == [a[0]] + (a[1..] + b);
    }
  }

  /** Freeing into the list keeps every byte. */
  lemma InsertKeepsBytes(fl: seq<Block>, b: Block, x: nat)
    ensures var (fl', leaked) := Insert(fl, b); In(fl', x) + In(AsSeq(leaked), x) == In(fl, x) + Covers(b, x)
  {
    if b.size >= HEADER_SIZE {
      InCons(b, fl, x);
      if |fl| >= MAX_ENTRIES {
        InWithout(fl, Smallest(fl), x);
        InCons(b, Without(fl, Smallest(fl)), x);
      }
    }
  }

  /** The first k bytes of a block, and the rest. */
  function Front(b: Block, k: nat): Block {
    Block(b.addr, k)
  }

  function Back(b: Block, k: nat): Block
    requires k <= b.size
  {
    Block(b.addr + k, b.size - k)
  }

  // ----- threads -----

  /** Where a thread is.  `want` is the size an allocation asked for, `ret` what it will return; a
      plain free returns nothing. */
  datatype Pc =
    | Idle
    | AllocTry(want: nat)                             // about to try the lock
    | AllocSearch(want: nat)                          // holds it, about to search the list
    | AllocSplit(want: nat, p: Block)                 // holds it, has unlinked p
    | AllocUnlock(want: nat, ret: Option<Block>)      // holds it, about to release it
    | AllocMap(want: nat)                             // about to call mmap
    | AllocMapped(want: nat, page: Block)             // has new pages
    | FreeEnter(want: nat, b: Block, ret: Option<Block>)    // entered backtrace_free with b
    | FreeTry(want: nat, b: Block, ret: Option<Block>)      // about to try the lock
    | FreeHeld(want: nat, b: Block, ret: Option<Block>)     // holds it, about to insert b
    | FreeUnlock(want: nat, ret: Option<Block>)             // holds it, about to release it

  predicate HoldsLock(pc: Pc) {
    pc.AllocSearch? || pc.AllocSplit? || pc.AllocUnlock? || pc.FreeHeld? || pc.FreeUnlock?
  }

  /** The blocks a thread has in hand. */
  function Held(pc: Pc): seq<Block> {
    match pc
    case AllocSplit(_, p) => [p]
    case AllocUnlock(_, ret) => AsSeq(ret)
    case AllocMapped(_, page) => [page]
    case FreeEnter(_, b, ret) => [b] + AsSeq(ret)
    case FreeTry(_, b, ret) => [b] + AsSeq(ret)
    case FreeHeld(_, b, ret) => [b] + AsSeq(ret)
    case FreeUnlock(_, ret) => AsSeq(ret)
    case _ => []
  }

  function InHand(threads: seq<Pc>, x: nat): nat {
    if threads == [] then 0 else In(Held(threads[0]), x) + InHand(threads[1..], x)
  }

  lemma {:induction false} InHandUpdate(threads: seq<Pc>, t: nat, pc: Pc, x: nat)
    requires t < |threads|
    ensures InHand(threads[t := pc], x) + In(Held(threads[t]), x) == InHand(threads, x) + In(Held(pc), x)
    decreases |threads|
  {
    if t > 0 {
      InHandUpdate(threads[1..], t - 1, pc, x);
      assert threads[t := pc][1..] == threads[1..][t - 1 := pc];
    } else {
      assert threads[t := pc][1..] == threads[1..];
    }
  }

  // ----- states and steps -----

  /** The shared state, the blocks owned by callers, and the blocks leaked so far. */
  datatype State = State(freelist: seq<Block>, lock: bool, threads: seq<Pc>, live: seq<Block>, leaked: seq<Block>, pagesize: nat)

  /** In how many blocks the byte at x is: free, owned by a caller, leaked or in the hands of a thread. */
  function Owners(s: State, x: nat): nat {
    In(s.freelist, x) + In(s.live, x) + In(s.leaked, x) + InHand(s.threads, x)
  }

  /** The pieces of a block of at least `want` bytes handed out for `want`: what is returned, the
      rounding loss, and what is put back. */
  function Taken(p: Block, want: nat): nat {
    var rounded := RoundUp(want, 8);
    if rounded < p.size then rounded else p.size
  }

  function Given(p: Block, want: nat): Block {
    Front(p, want)
  }

  function Loss(p: Block, want: nat): Block
    requires want <= p.size
  {
    Back(Front(p, Taken(p, want)), want)
  }

  function Remainder(p: Block, want: nat): Block {
    Back(p, Taken(p, want))
  }

  /** Thread t moves to pc. */
  function At(s: State, t: nat, pc: Pc): State
    requires t < |s.threads|
  {
    s.(threads := s.threads[t := pc])
  }

  /** Thread t returns ret to its caller. */
  function Return(s: State, t: nat, ret: Option<Block>): State
    requires t < |s.threads|
  {
    At(s, t, Idle).(live := AsSeq(ret) + s.live)
  }

  /** Calls and cuts that the caller of thread t may make. */
  ghost predicate Allocates(s: State, s': State, t: nat)
    requires t < |s.threads|
  {
    exists want: nat :: want > 0 && s' == At(s, t, AllocTry(want))
  }

  ghost predicate Frees(s: State, s': State, t: nat, i: nat)
    requires t < |s.threads|
  {
    && i < |s.live| && s.live[i].addr % 8 == 0
    && s' == At(s, t, FreeEnter(0, s.live[i], None)).(live := Without(s.live, i))
  }

  ghost predicate Cuts(s: State, s': State, i: nat, k: nat) {
    && i < |s.live| && 0 < k < s.live[i].size
    && s' == s.(live := [Front(s.live[i], k)] + ([Back(s.live[i], k)] + Without(s.live, i)))
  }

  /** A step of the caller of thread t: a call, or cutting a block it owns. */
  ghost predicate CallerStep(s: State, s': State, t: nat) {
    && t < |s.threads| && s.threads[t] == Idle
    && (Allocates(s, s', t) || (exists i: nat :: Frees(s, s', t, i)) || (exists i: nat, k: nat :: Cuts(s, s', i, k)))
  }

  /** New pages: aligned, and apart from all memory in use. */
  ghost predicate FreshPages(s: State, want: nat, page: Block) {
    && s.pagesize > 0
    && page.size == RoundUp(want, s.pagesize) && page.addr % s.pagesize == 0
    && forall x: nat :: Covers(page, x) > 0 ==> Owners(s, x) == 0
  }

  ghost predicate Maps(s: State, s': State, t: nat, want: nat, page: Block)
    requires t < |s.threads|
  {
    FreshPages(s, want, page) && s' == At(s, t, AllocMapped(want, page))
  }

  /** A step of backtrace_alloc. */
  ghost predicate AllocStep(s: State, s': State, t: nat) {
    && t < |s.threads|
    && match s.threads[t]
       case AllocTry(want) =>
         if s.lock then s' == At(s, t, AllocMap(want)) else s' == At(s, t, AllocSearch(want)).(lock := true)
       case AllocSearch(want) =>
         var i := FirstFit(s.freelist, want);
         if i < |s.freelist| then s' == At(s, t, AllocSplit(want, s.freelist[i])).(freelist := Without(s.freelist, i))
         else s' == At(s, t, AllocUnlock(want, None))
       case AllocSplit(want, p) =>
         && want <= p.size
         && (var rest := Remainder(p, want);
             var (fl, leaked) := if rest.size > 0 then Insert(s.freelist, rest) else (s.freelist, None);
             s' == At(s, t, AllocUnlock(want, Some(Given(p, want)))).(freelist := fl,
                     leaked := [Loss(p, want)] + (AsSeq(leaked) + s.leaked)))
       case AllocUnlock(want, ret) =>
         if ret.Some? then s' == Return(s, t, ret).(lock := false) else s' == At(s, t, AllocMap(want)).(lock := false)
       case AllocMap(want) =>
         s' == Return(s, t, None) || exists page: Block :: Maps(s, s', t, want, page)
       case AllocMapped(want, page) =>
         && want <= page.size
         && (var rest, s1 := Remainder(page, want), s.(leaked := [Loss(page, want)] + s.leaked);
             s' == if rest.size > 0 then At(s1, t, FreeEnter(want, rest, Some(Given(page, want)))) else Return(s1, t, Some(Given(page, want))))
       case _ => false
  }

  /** munmap is called for large blocks of whole pages. */
  predicate Unmaps(s: State, b: Block) {
    s.pagesize > 0 && b.size >= LARGE && b.addr % s.pagesize == 0 && b.size % s.pagesize == 0
  }

  /** A step of backtrace_free. */
  ghost predicate FreeStep(s: State, s': State, t: nat) {
    && t < |s.threads|
    && match s.threads[t]
       case FreeEnter(want, b, ret) =>
         s' == At(s, t, FreeTry(want, b, ret)) || (Unmaps(s, b) && s' == Return(s, t, ret))
       case FreeTry(want, b, ret) =>
         if s.lock then s' == Return(s, t, ret).(leaked := [b] + s.leaked)
         else s' == At(s, t, FreeHeld(want, b, ret)).(lock := true)
       case FreeHeld(want, b, ret) =>
         var (fl, leaked) := Insert(s.freelist, b);
         s' == At(s, t, FreeUnlock(want, ret)).(freelist := fl, leaked := AsSeq(leaked) + s.leaked)
       case FreeUnlock(want, ret) => s' == Return(s, t, ret).(lock := false)
       case _ => false
  }

  ghost predicate ThreadStep(s: State, s': State, t: nat) {
    CallerStep(s, s', t) || AllocStep(s, s', t) || FreeStep(s, s', t)
  }

  // ----- the invariant -----

  predicate Aligned(b: Block) {
    b.addr % 8 == 0
  }

  /** What will be returned is aligned and as large as was asked. */
  predicate RetOk(want: nat, ret: Option<Block>) {
    ret.Some? ==> want > 0 && ret.value.size == want && Aligned(ret.value)
  }

  predicate PcOk(pc: Pc) {
    match pc
    case Idle => true
    case AllocTry(want) => want > 0
    case AllocSearch(want) => want > 0
    case AllocSplit(want, p) => 0 < want <= p.size && Aligned(p)
    case AllocUnlock(want, ret) => want > 0 && RetOk(want, ret)
    case AllocMap(want) => want > 0
    case AllocMapped(want, page) => 0 < want <= page.size && Aligned(page)
    case FreeEnter(want, b, ret) => Aligned(b) && RetOk(want, ret) && (want > 0 ==> ret.Some?)
    case FreeTry(want, b, ret) => Aligned(b) && RetOk(want, ret) && (want > 0 ==> ret.Some?)
    case FreeHeld(want, b, ret) => Aligned(b) && RetOk(want, ret) && (want > 0 ==> ret.Some?)
    case FreeUnlock(want, ret) => RetOk(want, ret) && (want > 0 ==> ret.Some?)
  }

  /** The lock is held exactly when one thread is between taking and releasing it. */
  ghost predicate MutualExclusion(s: State) {
    && (forall t: nat, u: nat :: t < |s.threads| && u < |s.threads| && HoldsLock(s.threads[t]) && HoldsLock(s.threads[u]) ==> t == u)
    && (s.lock <==> exists t: nat :: t < |s.threads| && HoldsLock(s.threads[t]))
  }

  ghost predicate OneOwner(s: State) {
    forall x: nat :: Owners(s, x) <= 1
  }

  ghost predicate BlocksOk(fl: seq<Block>) {
    |fl| <= MAX_ENTRIES && forall i: nat :: i < |fl| ==> Aligned(fl[i]) && fl[i].size >= HEADER_SIZE
  }

  ghost predicate ListOk(s: State) {
    && BlocksOk(s.freelist)
    && (forall t: nat :: t < |s.threads| && s.threads[t].AllocSplit? ==> |s.freelist| < MAX_ENTRIES)
  }

  ghost predicate PcsOk(s: State) {
    forall t: nat :: t < |s.threads| ==> PcOk(s.threads[t])
  }

  ghost predicate Inv(s: State) {
    s.pagesize > 0 && s.pagesize % 8 == 0 && OneOwner(s) && ListOk(s) && PcsOk(s) && MutualExclusion(s)
  }

  ghost predicate Init(s: State) {
    && s.freelist == s.live == s.leaked == [] && !s.lock
    && s.pagesize > 0 && s.pagesize % 8 == 0
    && forall t: nat :: t < |s.threads| ==> s.threads[t] == Idle
  }

  /** A thread other than t keeps its place; how the lock may change with thread t. */
  ghost predicate LockMove(s: State, s': State, t: nat) {
    && t < |s.threads| && |s'.threads| == |s.threads|
    && (forall u: nat :: u < |s.threads| && u != t ==> s'.threads[u] == s.threads[u])
    && var before, after := HoldsLock(s.threads[t]), HoldsLock(s'.threads[t]);
    && (before == after ==> s'.lock == s.lock)
    && (!before && after ==> !s.lock && s'.lock)
    && (before && !after ==> !s'.lock)
  }

  lemma LockMoveKeeps(s: State, s': State, t: nat)
    requires MutualExclusion(s) && LockMove(s, s', t)
    ensures MutualExclusion(s')
  {
    if s'.lock {
      if HoldsLock(s'.threads[t]) {
      } else {
        var u: nat :| u < |s.threads| && HoldsLock(s.threads[u]);
        assert u != t && HoldsLock(s'.threads[u]);
      }
    } else {
      assert s.lock ==> HoldsLock(s.threads[t]);
    }
  }

  // ----- every step keeps the bytes -----

  /** The bytes a step takes from the system, and gives back to it. */
  ghost function Gained(s: State, s': State, t: nat, x: nat): nat
    requires t < |s.threads| && t < |s'.threads|
  {
    if s'.threads[t].AllocMapped? && s.threads[t].AllocMap? then Covers(s'.threads[t].page, x) else 0
  }

  ghost function GivenBack(s: State, s': State, t: nat, x: nat): nat
    requires t < |s.threads| && t < |s'.threads|
  {
    if s.threads[t].FreeEnter? && s'.threads[t] == Idle then Covers(s.threads[t].b, x) else 0
  }

  lemma CallerKeepsBytes(s: State, s': State, t: nat, x: nat)
    requires CallerStep(s, s', t)
    ensures Owners(s', x) == Owners(s, x)
  {
    hide In, InHand;
    InHandUpdate(s.threads, t, s'.threads[t], x);
    if !Allocates(s, s', t) {
      if i: nat :| Frees(s, s', t, i) {
        InWithout(s.live, i, x);
        InCons(s.live[i], [], x);
        InNone(x);
      } else {
        var i: nat, k: nat :| Cuts(s, s', i, k);
        InWithout(s.live, i, x);
        InCons(Back(s.live[i], k), Without(s.live, i), x);
        InCons(Front(s.live[i], k), [Back(s.live[i], k)] + Without(s.live, i), x);
      }
    } else {
      InNone(x);
    }
  }

  lemma InNone(x: nat)
    ensures In([], x) == 0
  {
  }

  lemma InOne(b: Block, x: nat)
    ensures In([b], x) == Covers(b, x)
  {
  }

  /** Handing out part of a block cuts it into three. */
  lemma PiecesCover(p: Block, want: nat, x: nat)
    requires 0 < want <= p.size
    ensures Covers(Given(p, want), x) + Covers(Loss(p, want), x) + Covers(Remainder(p, want), x) == Covers(p, x)
  {
  }

  lemma SplitKeepsBytes(s: State, s': State, t: nat, x: nat)
    requires AllocStep(s, s', t) && s.threads[t].AllocSplit? && s.threads[t].want > 0
    ensures Owners(s', x) == Owners(s, x)
  {
    hide In, InHand;
    var p, want := s.threads[t].p, s.threads[t].want;
    InHandUpdate(s.threads, t, s'.threads[t], x);
    PiecesCover(p, want, x);
    var rest := Remainder(p, want);
    InsertKeepsBytes(s.freelist, rest, x);
    var leaked := if rest.size > 0 then Insert(s.freelist, rest).1 else None;
    InConcat(AsSeq(leaked), s.leaked, x);
    InCons(Loss(p, want), AsSeq(leaked) + s.leaked, x);
    InOne(p, x);
    InOne(Given(p, want), x);
    InNone(x);
  }

  lemma MappedKeepsBytes(s: State, s': State, t: nat, x: nat)
    requires AllocStep(s, s', t) && s.threads[t].AllocMapped? && s.threads[t].want > 0
    ensures Owners(s', x) == Owners(s, x)
  {
    hide In, InHand;
    var page, want := s.threads[t].page, s.threads[t].want;
    InHandUpdate(s.threads, t, s'.threads[t], x);
    PiecesCover(page, want, x);
    var rest := Remainder(page, want);
    InCons(Loss(page, want), s.leaked, x);
    InCons(Given(page, want), s.live, x);
    InOne(page, x);
    InCons(rest, [Given(page, want)], x);
    InOne(Given(page, want), x);
    InNone(x);
  }

  lemma AllocKeepsBytes(s: State, s': State, t: nat, x: nat)
    requires AllocStep(s, s', t) && PcOk(s.threads[t])
    ensures Owners(s', x) == Owners(s, x) + Gained(s, s', t, x)
  {
    hide In, InHand;
    if s.threads[t].AllocSplit? {
      SplitKeepsBytes(s, s', t, x);
    } else if s.threads[t].AllocMapped? {
      MappedKeepsBytes(s, s', t, x);
    } else {
      InHandUpdate(s.threads, t, s'.threads[t], x);
      InNone(x);
      match s.threads[t]
      case AllocSearch(want) =>
        var i := FirstFit(s.freelist, want);
        if i < |s.freelist| {
          InWithout(s.freelist, i, x);
          InOne(s.freelist[i], x);
        }
      case AllocUnlock(want, ret) =>
        InConcat(AsSeq(ret), s.live, x);
      case AllocMap(want) =>
        InConcat([], s.live, x);
        if s' != Return(s, t, None) {
          InOne(s'.threads[t].page, x);
        }
      case _ =>
    }
  }

  lemma FreeKeepsBytes(s: State, s': State, t: nat, x: nat)
    requires FreeStep(s, s', t)
    ensures Owners(s', x) + GivenBack(s, s', t, x) == Owners(s, x)
  {
    hide In, InHand;
    InHandUpdate(s.threads, t, s'.threads[t], x);
    InNone(x);
    if s.threads[t].FreeUnlock? {
      InConcat(AsSeq(s.threads[t].ret), s.live, x);
    } else {
      var b, ret := s.threads[t].b, s.threads[t].ret;
      InCons(b, AsSeq(ret), x);
      InConcat(AsSeq(ret), s.live, x);
      InCons(b, s.leaked, x);
      InsertKeepsBytes(s.freelist, b, x);
      InConcat(AsSeq(Insert(s.freelist, b).1), s.leaked, x);
    }
  }

  lemma StepKeepsOneOwner(s: State, s': State, t: nat)
    requires ThreadStep(s, s', t) && OneOwner(s) && PcsOk(s)
    ensures OneOwner(s')
  {
    hide In, InHand, Owners;
    forall x: nat ensures Owners(s', x) <= 1 {
      if CallerStep(s, s', t) {
        CallerKeepsBytes(s, s', t, x);
      } else if AllocStep(s, s', t) {
        AllocKeepsBytes(s, s', t, x);
      } else {
        FreeKeepsBytes(s, s', t, x);
      }
    }
  }

  // ----- every step keeps the rest of the invariant -----

  lemma MultipleMod(q: nat, unit: nat)
    requires unit > 0
    ensures (unit * q) % unit == 0
  {
    var m := unit * q;
    assert m == unit * (m / unit) + m % unit;
    assert unit * (q - m / unit) == m % unit;
    if q - m / unit >= 1 {
      Bits.MulMono(unit, 1, q - m / unit);
    } else if q - m / unit <= -1 {
      Bits.MulMono(unit, q - m / unit, -1);
    }
  }

  /** A multiple of a page size that is a multiple of eight is a multiple of eight. */
  lemma PageAligned(addr: nat, pagesize: nat)
    requires pagesize > 0 && pagesize % 8 == 0 && addr % pagesize == 0
    ensures addr % 8 == 0
  {
    var q, r := addr / pagesize, pagesize / 8;
    assert addr == pagesize * q && pagesize == 8 * r;
    assert addr == 8 * (r * q);
    MultipleMod(r * q, 8);
  }

  lemma AllocStepPc(s: State, s': State, t: nat)
    requires AllocStep(s, s', t) && PcOk(s.threads[t]) && s.pagesize > 0 && s.pagesize % 8 == 0
    requires BlocksOk(s.freelist)
    ensures PcOk(s'.threads[t])
  {
    hide Owners, Insert, Covers;
    match s.threads[t]
    case AllocMap(want) =>
      if s' != Return(s, t, None) {
        PageAligned(s'.threads[t].page.addr, s.pagesize);
      }
    case _ =>
  }

  lemma FreeStepPc(s: State, s': State, t: nat)
    requires FreeStep(s, s', t) && PcOk(s.threads[t])
    ensures PcOk(s'.threads[t])
  {
    hide Insert;
  }

  lemma StepKeepsPcs(s: State, s': State, t: nat)
    requires ThreadStep(s, s', t) && Inv(s)
    ensures PcsOk(s')
  {
    hide Owners, OneOwner, MutualExclusion, AllocStep, FreeStep;
    StepMovesLock(s, s', t);
    assert PcOk(s.threads[t]);
    if AllocStep(s, s', t) {
      AllocStepPc(s, s', t);
    } else if FreeStep(s, s', t) {
      FreeStepPc(s, s', t);
    }
  }

  /** Only a thread that holds the lock changes the free list. */
  lemma OnlyHolderTouchesList(s: State, s': State, t: nat)
    requires ThreadStep(s, s', t) && s'.freelist != s.freelist
    ensures HoldsLock(s.threads[t]) && HoldsLock(s'.threads[t])
  {
  }

  lemma CallerMovesLock(s: State, s': State, t: nat)
    requires CallerStep(s, s', t)
    ensures LockMove(s, s', t)
  {
    hide Insert, FirstFit, Without, RoundUp, Covers, Remainder, Loss, Given, AsSeq;
  }

  lemma AllocMovesLock(s: State, s': State, t: nat)
    requires AllocStep(s, s', t)
    ensures LockMove(s, s', t)
  {
    hide Insert, FirstFit, Without, RoundUp, Covers, Remainder, Loss, Given, AsSeq;
  }

  lemma FreeMovesLock(s: State, s': State, t: nat)
    requires FreeStep(s, s', t)
    ensures LockMove(s, s', t)
  {
    hide Insert, FirstFit, Without, RoundUp, Covers, Remainder, Loss, Given, AsSeq;
  }

  lemma StepMovesLock(s: State, s': State, t: nat)
    requires ThreadStep(s, s', t)
    ensures LockMove(s, s', t)
  {
    hide LockMove, CallerStep, AllocStep, FreeStep;
    if CallerStep(s, s', t) {
      CallerMovesLock(s, s', t);
    } else if AllocStep(s, s', t) {
      AllocMovesLock(s, s', t);
    } else {
      FreeMovesLock(s, s', t);
    }
  }

  lemma InsertOk(fl: seq<Block>, b: Block)
    requires BlocksOk(fl) && Aligned(b)
    ensures BlocksOk(Insert(fl, b).0)
  {
  }

  lemma WithoutOk(fl: seq<Block>, i: nat)
    requires BlocksOk(fl) && i < |fl|
    ensures BlocksOk(Without(fl, i)) && |Without(fl, i)| < |fl|
  {
  }

  lemma StepKeepsList(s: State, s': State, t: nat)
    requires ThreadStep(s, s', t) && Inv(s)
    ensures ListOk(s')
  {
    hide Owners, OneOwner, BlocksOk, Without, Insert;
    StepMovesLock(s, s', t);
    assert PcOk(s.threads[t]);
    if s.threads[t].AllocSearch? && FirstFit(s.freelist, s.threads[t].want) < |s.freelist| {
      WithoutOk(s.freelist, FirstFit(s.freelist, s.threads[t].want));
    }
    if s'.freelist != s.freelist {
      OnlyHolderTouchesList(s, s', t);
      match s.threads[t] {
        case AllocSplit(want, p) => InsertOk(s.freelist, Remainder(p, want));
        case FreeHeld(_, b, _) => InsertOk(s.freelist, b);
        case _ =>
      }
    }
    MaxEntries(s.freelist);
  }

  lemma MaxEntries(fl: seq<Block>)
    requires BlocksOk(fl)
    ensures |fl| <= MAX_ENTRIES
  {
  }

  lemma StepKeepsInv(s: State, s': State, t: nat)
    requires ThreadStep(s, s', t) && Inv(s)
    ensures Inv(s')
  {
    StepKeepsOneOwner(s, s', t);
    StepKeepsPcs(s, s', t);
    StepKeepsList(s, s', t);
    StepMovesLock(s, s', t);
    LockMoveKeeps(s, s', t);
  }

  // ----- every run -----

  /** Thread who[k] takes state k to state k + 1. */
  ghost predicate StepAt(states: seq<State>, who: seq<nat>, k: nat)
    requires |states| == |who| + 1
  {
    k < |who| ==> ThreadStep(states[k], states[k + 1], who[k])
  }

  ghost predicate Run(states: seq<State>, who: seq<nat>) {
    |states| == |who| + 1 && forall k: nat :: StepAt(states, who, k)
  }

  lemma {:induction false} RunKeepsInv(states: seq<State>, who: seq<nat>, k: nat)
    requires Run(states, who) && Init(states[0]) && k < |states|
    ensures Inv(states[k])
  {
    hide Owners, In, ThreadStep;
    if k == 0 {
      InitInv(states[0]);
    } else {
      RunKeepsInv(states, who, k - 1);
      assert StepAt(states, who, k - 1);
      StepKeepsInv(states[k - 1], states[k], who[k - 1]);
    }
  }

  lemma {:induction false} NoneInHand(threads: seq<Pc>, x: nat)
    requires forall t: nat :: t < |threads| ==> threads[t] == Idle
    ensures InHand(threads, x) == 0
  {
    if threads != [] {
      assert threads[0] == Idle;
      forall t: nat | t < |threads[1..]| ensures threads[1..][t] == Idle {
        var u := t + 1;
        assert threads[u] == Idle;
      }
      NoneInHand(threads[1..], x);
    }
  }

  lemma InitInv(s: State)
    requires Init(s)
    ensures Inv(s)
  {
    forall x: nat ensures Owners(s, x) <= 1 {
      NoneInHand(s.threads, x);
    }
  }

  predicate Apart(a: Block, b: Block) {
    a.addr + a.size <= b.addr || b.addr + b.size <= a.addr
  }

  lemma {:induction false} InTwice(bs: seq<Block>, i: nat, j: nat, x: nat)
    requires i < j < |bs| && Covers(bs[i], x) == Covers(bs[j], x) == 1
    ensures In(bs, x) >= 2
  {
    InWithout(bs, i, x);
    InWithout(Without(bs, i), j - 1, x);
  }

  /** Free, live and leaked blocks. */
  function Blocks(s: State): seq<Block> {
    s.freelist + (s.live + s.leaked)
  }

  /** In every state of every run, for any number of threads: free, live and leaked blocks do not
      overlap, and the free list holds at most sixteen blocks. */
  lemma BlocksApart(states: seq<State>, who: seq<nat>, k: nat, i: nat, j: nat)
    requires Run(states, who) && Init(states[0]) && k < |states|
    ensures |states[k].freelist| <= 16
    ensures var bs := Blocks(states[k]);
      i < j < |bs| && bs[i].size > 0 && bs[j].size > 0 ==> Apart(bs[i], bs[j])
  {
    hide Run, Init, In, InHand;
    RunKeepsInv(states, who, k);
    var s := states[k];
    var bs := Blocks(s);
    if i < j < |bs| && bs[i].size > 0 && bs[j].size > 0 {
      var x := if bs[i].addr <= bs[j].addr then bs[j].addr else bs[i].addr;
      InConcat(s.freelist, s.live + s.leaked, x);
      InConcat(s.live, s.leaked, x);
      assert Owners(s, x) <= 1;
      if !Apart(bs[i], bs[j]) {
        InTwice(bs, i, j, x);
      }
    }
  }

  // ----- pages -----

  lemma {:induction false} HeldInHand(threads: seq<Pc>, u: nat, x: nat)
    requires u < |threads|
    ensures In(Held(threads[u]), x) <= InHand(threads, x)
    decreases |threads|
  {
    if u > 0 {
      HeldInHand(threads[1..], u - 1, x);
    }
  }

  /** Whether anything but thread t has the byte at x. */
  ghost predicate OthersHave(s: State, t: nat, x: nat) {
    || In(s.freelist, x) > 0 || In(s.live, x) > 0 || In(s.leaked, x) > 0
    || exists u: nat :: u < |s.threads| && u != t && In(Held(s.threads[u]), x) > 0
  }

  lemma {:induction false} TwoInHand(threads: seq<Pc>, t: nat, u: nat, x: nat)
    requires t < |threads| && u < |threads| && t != u
    ensures In(Held(threads[t]), x) + In(Held(threads[u]), x) <= InHand(threads, x)
    decreases |threads|
  {
    if t == 0 {
      HeldInHand(threads[1..], u - 1, x);
    } else if u == 0 {
      HeldInHand(threads[1..], t - 1, x);
    } else {
      TwoInHand(threads[1..], t - 1, u - 1, x);
    }
  }

  lemma NoOtherHas(s: State, t: nat, x: nat)
    requires Owners(s, x) <= 1 && t < |s.threads| && In(Held(s.threads[t]), x) > 0
    ensures !OthersHave(s, t, x)
  {
    HeldInHand(s.threads, t, x);
    forall u: nat | u < |s.threads| && u != t ensures In(Held(s.threads[u]), x) == 0 {
      TwoInHand(s.threads, t, u, x);
    }
  }

  /** munmap is given whole pages, sixteen of 4096 bytes or more in all, of which no byte is free, owned
      by a caller, leaked or in the hands of another thread; all other memory stays with its owner. */
  lemma UnmapsWholePages(s: State, s': State, t: nat, x: nat) returns (first: nat, count: nat)
    requires Inv(s) && FreeStep(s, s', t) && s.threads[t].FreeEnter? && s'.threads[t] == Idle
    ensures var b := s.threads[t].b;
      && b.addr == s.pagesize * first && b.size == s.pagesize * count && b.size >= 65536
      && (b.addr <= x < b.addr + b.size ==> !OthersHave(s, t, x) && Owners(s', x) == 0)
      && (!(b.addr <= x < b.addr + b.size) ==> Owners(s', x) == Owners(s, x))
    ensures s'.freelist == s.freelist && s'.leaked == s.leaked && s'.lock == s.lock
  {
    hide In, InHand, OthersHave, MutualExclusion, ListOk, PcsOk;
    var b, ret := s.threads[t].b, s.threads[t].ret;
    first, count := b.addr / s.pagesize, b.size / s.pagesize;
    FreeKeepsBytes(s, s', t, x);
    if Covers(b, x) > 0 {
      InCons(b, AsSeq(ret), x);
      NoOtherHas(s, t, x);
    }
  }

  /** mmap is asked for the fewest pages that hold the size; they belong to nobody before and to
      thread t after. */
  lemma MapsFewestPages(s: State, s': State, t: nat, x: nat) returns (count: nat)
    requires Inv(s) && AllocStep(s, s', t) && s.threads[t].AllocMap? && s'.threads[t] != Idle
    ensures s'.threads[t].AllocMapped?
    ensures var want, page := s.threads[t].want, s'.threads[t].page;
      && page.size == s.pagesize * count && s.pagesize * (count - 1) < want <= s.pagesize * count
      && (page.addr <= x < page.addr + page.size ==> Owners(s, x) == 0 && Owners(s', x) == 1)
      && (!(page.addr <= x < page.addr + page.size) ==> Owners(s', x) == Owners(s, x))
  {
    hide In, InHand, MutualExclusion, ListOk, RoundUp;
    var want, page := s.threads[t].want, s'.threads[t].page;
    count := page.size / s.pagesize;
    assert page.size == s.pagesize * count;
    AllocKeepsBytes(s, s', t, x);
  }

  /** Cutting a block for a caller leaks fewer than eight bytes, and the rest that is put back starts
      at a multiple of eight. */
  lemma SplitLeaksLittle(p: Block, want: nat)
    requires want <= p.size && Aligned(p)
    ensures Loss(p, want).size < 8 && Remainder(p, want).size <= p.size - want
    ensures Remainder(p, want).size > 0 ==> Remainder(p, want).addr % 8 == 0 && Loss(p, want).size == (8 - want % 8) % 8
  {
  }

  // ----- what a call returns -----

  /** The size an allocation in progress was asked for; 0 for a plain free. */
  function Want(pc: Pc): nat {
    if pc == Idle then 0 else pc.want
  }

  /** An allocation that comes back has either been refused pages by mmap, or has added exactly one
      block to those its callers own: aligned, of the size asked for.  A free adds none. */
  lemma ReturnsCover(s: State, s': State, t: nat)
    requires Inv(s) && (AllocStep(s, s', t) || FreeStep(s, s', t))
    ensures s'.threads[t] != Idle ==> s'.live == s.live && Want(s'.threads[t]) == Want(s.threads[t])
    ensures s'.threads[t] == Idle && Want(s.threads[t]) == 0 ==> s'.live == s.live
    ensures s'.threads[t] == Idle && Want(s.threads[t]) > 0 ==>
      || (s.threads[t].AllocMap? && s'.live == s.live)
      || (exists b: Block :: s'.live == [b] + s.live && b.size == Want(s.threads[t]) && Aligned(b))
  {
    hide Owners, InHand, In, OneOwner, MutualExclusion, ListOk;
    var pc := s.threads[t];
    assert PcOk(pc);
    if s'.threads[t] == Idle && Want(pc) > 0 && !pc.AllocMap? {
      var b := if pc.AllocMapped? then Given(pc.page, pc.want) else pc.ret.value;
      assert s'.live == [b] + s.live;
    }
  }

  // ----- no thread waits -----

  /** Bounds the steps left in a call. */
  function Rank(pc: Pc): nat {
    match pc
    case Idle => 0
    case AllocTry(_) => 10
    case AllocSearch(_) => 9
    case AllocSplit(_, _) => 8
    case AllocUnlock(_, _) => 7
    case AllocMap(_) => 6
    case AllocMapped(_, _) => 5
    case FreeEnter(_, _, _) => 4
    case FreeTry(_, _, _) => 3
    case FreeHeld(_, _, _) => 2
    case FreeUnlock(_, _) => 1
  }

  /** A thread inside a call can always take its next step, whatever the others are doing. */
  lemma NeverBlocked(s: State, t: nat) returns (s': State)
    requires Inv(s) && t < |s.threads| && s.threads[t] != Idle
    ensures AllocStep(s, s', t) || FreeStep(s, s', t)
  {
    hide Owners, InHand, In, OneOwner, MutualExclusion, ListOk;
    assert PcOk(s.threads[t]);
    match s.threads[t]
    case AllocTry(want) =>
      s' := if s.lock then At(s, t, AllocMap(want)) else At(s, t, AllocSearch(want)).(lock := true);
    case AllocSearch(want) =>
      var i := FirstFit(s.freelist, want);
      s' := if i < |s.freelist| then At(s, t, AllocSplit(want, s.freelist[i])).(freelist := Without(s.freelist, i))
            else At(s, t, AllocUnlock(want, None));
    case AllocSplit(want, p) =>
      var rest := Remainder(p, want);
      var (fl, leaked) := if rest.size > 0 then Insert(s.freelist, rest) else (s.freelist, None);
      s' := At(s, t, AllocUnlock(want, Some(Given(p, want)))).(freelist := fl,
               leaked := [Loss(p, want)] + (AsSeq(leaked) + s.leaked));
    case AllocUnlock(want, ret) =>
      s' := if ret.Some? then Return(s, t, ret).(lock := false) else At(s, t, AllocMap(want)).(lock := false);
    case AllocMap(want) =>
      s' := Return(s, t, None);
    case AllocMapped(want, page) =>
      var rest, s1 := Remainder(page, want), s.(leaked := [Loss(page, want)] + s.leaked);
      s' := if rest.size > 0 then At(s1, t, FreeEnter(want, rest, Some(Given(page, want))))
            else Return(s1, t, Some(Given(page, want)));
    case FreeEnter(want, b, ret) =>
      s' := At(s, t, FreeTry(want, b, ret));
    case FreeTry(want, b, ret) =>
      s' := if s.lock then Return(s, t, ret).(leaked := [b] + s.leaked) else At(s, t, FreeHeld(want, b, ret)).(lock := true);
    case FreeHeld(want, b, ret) =>
      var (fl, leaked) := Insert(s.freelist, b);
      s' := At(s, t, FreeUnlock(want, ret)).(freelist := fl, leaked := AsSeq(leaked) + s.leaked);
    case FreeUnlock(want, ret) =>
      s' := Return(s, t, ret).(lock := false);
  }

  function Turns(who: seq<nat>, t: nat): nat {
    if who == [] then 0 else (if who[0] == t then 1 else 0) + Turns(who[1..], t)
  }

  lemma AllocStepRank(s: State, s': State, t: nat)
    requires AllocStep(s, s', t)
    ensures |s'.threads| == |s.threads| && Rank(s'.threads[t]) < Rank(s.threads[t])
  {
    hide Insert, FirstFit, Without, Covers, RoundUp;
  }

  lemma StepRank(s: State, s': State, u: nat, t: nat)
    requires ThreadStep(s, s', u) && t < |s.threads| && s.threads[t] != Idle
    ensures |s'.threads| == |s.threads|
    ensures Rank(s'.threads[t]) + (if u == t then 1 else 0) <= Rank(s.threads[t])
  {
    hide Insert, FirstFit, Without, Covers, RoundUp, Rank, MutualExclusion;
    StepMovesOne(s, s', u);
    if u == t {
      hide CallerStep, AllocStep, FreeStep;
      OwnStepRank(s, s', t);
    }
  }

  lemma StepMovesOne(s: State, s': State, u: nat)
    requires ThreadStep(s, s', u)
    ensures |s'.threads| == |s.threads| && forall t: nat :: t < |s.threads| && t != u ==> s'.threads[t] == s.threads[t]
  {
    StepMovesLock(s, s', u);
    hide ThreadStep;
  }

  lemma OwnStepRank(s: State, s': State, t: nat)
    requires ThreadStep(s, s', t) && t < |s.threads| && s.threads[t] != Idle
    ensures |s'.threads| == |s.threads| && Rank(s'.threads[t]) < Rank(s.threads[t])
  {
    hide Insert, FirstFit, Without, Covers, RoundUp;
    if AllocStep(s, s', t) {
      hide AllocStep, FreeStep;
      AllocStepRank(s, s', t);
    } else {
      hide AllocStep;
    }
  }

  /** Whatever the other threads do in between, a call is over after at most ten steps of its own. */
  lemma {:induction false} CallIsBounded(states: seq<State>, who: seq<nat>, t: nat)
    requires Run(states, who) && t < |states[0].threads|
    requires forall k: nat :: k < |who| ==> t < |states[k].threads| && states[k].threads[t] != Idle
    ensures Turns(who, t) <= Rank(states[0].threads[t]) <= 10
    decreases |who|
  {
    hide ThreadStep, Rank;
    if who != [] {
      assert StepAt(states, who, 0);
      StepRank(states[0], states[1], who[0], t);
      forall k: nat ensures StepAt(states[1..], who[1..], k) {
        var m := k + 1;
        assert StepAt(states, who, m);
      }
      forall k: nat | k < |who[1..]| ensures t < |states[1..][k].threads| && states[1..][k].threads[t] != Idle {
        var m := k + 1;
        assert states[1..][k] == states[m];
      }
      CallIsBounded(states[1..], who[1..], t);
    }
    RankBound(states[0].threads[t]);
  }

  lemma RankBound(pc: Pc)
    ensures Rank(pc) <= 10
  {
  }

  // ----- what leaves the free list -----

  /** A block leaves the list in two ways: it is taken to satisfy an allocation, or it is evicted
      by the free of a larger block, from a full list in which no block is smaller. */
  lemma LeavesList(s: State, s': State, t: nat, i: nat)
    requires Inv(s) && ThreadStep(s, s', t) && i < |s.freelist| && s.freelist[i] !in s'.freelist
    ensures
      || (s.threads[t].AllocSearch? && s'.threads[t] == AllocSplit(s.threads[t].want, s.freelist[i]))
      || (&& s.threads[t].FreeHeld? && |s.freelist| == MAX_ENTRIES
          && s.freelist[i].size < s.threads[t].b.size
          && forall k: nat :: k < |s.freelist| ==> s.freelist[i].size <= s.freelist[k].size)
  {
    hide Owners, InHand, In, OneOwner, MutualExclusion;
    OnlyHolderTouchesList(s, s', t);
    if s.threads[t].AllocSearch? {
      WithoutKeeps(s.freelist, i, FirstFit(s.freelist, s.threads[t].want));
    } else {
      var b := if s.threads[t].AllocSplit? then Remainder(s.threads[t].p, s.threads[t].want) else s.threads[t].b;
      SmallestIsLeast(s.freelist, |s.freelist|);
      StaysUnlessSmallest(s.freelist, b, i);
    }
  }

  lemma WithoutKeeps(fl: seq<Block>, i: nat, j: nat)
    requires i < |fl|
    ensures j < |fl| && i != j ==> fl[i] in Without(fl, j)
  {
    if j < |fl| && i != j {
      assert fl[i] == Without(fl, j)[if i < j then i else i - 1];
    }
  }

  lemma StaysUnlessSmallest(fl: seq<Block>, b: Block, i: nat)
    requires i < |fl| <= MAX_ENTRIES
    ensures fl[i] in Insert(fl, b).0 || (|fl| == MAX_ENTRIES && fl[i].size < b.size && i == Smallest(fl))
  {
    if |fl| < MAX_ENTRIES {
      assert fl[i] == ([b] + fl)[1 + i];
    } else {
      WithoutKeeps(fl, i, Smallest(fl));
    }
  }
}
