/** The free list of mmap.c: first fit with splitting, and insertion that keeps at most 16 blocks. */
module FreeList {
  import Bits
  import opened Options

  const MAX_ENTRIES: nat := 16
  const HEADER_SIZE: nat := 16

  /** The bytes addr .. addr + size. */
  datatype Block = Block(addr: nat, size: nat)

  function Without(fl: seq<Block>, i: nat): seq<Block>
    requires i < |fl|
  {
    fl[..i] + fl[i + 1..]
  }

  // ----- insertion -----

  /** The first block of the smallest size. */
  function Smallest(fl: seq<Block>): (i: nat)
    requires fl != []
    ensures i < |fl|
  {
    SmallestBelow(fl, |fl|)
  }

  function SmallestBelow(fl: seq<Block>, n: nat): (i: nat)
    requires 0 < n <= |fl|
    ensures i < n
  {
    if n == 1 then 0
    else
      var j := SmallestBelow(fl, n - 1);
      if fl[n - 1].size < fl[j].size then n - 1 else j
  }

  /** The free list after backtrace_free_locked, and the block that is leaked, if any. */
  function Insert(fl: seq<Block>, b: Block): (seq<Block>, Option<Block>) {
    if b.size < HEADER_SIZE then (fl, Some(b))
    else if |fl| < MAX_ENTRIES then ([b] + fl, None)
    else if b.size <= fl[Smallest(fl)].size then (fl, Some(b))
    else ([b] + Without(fl, Smallest(fl)), Some(fl[Smallest(fl)]))
  }

  function AsMultiset(b: Option<Block>): multiset<Block> {
    if b.None? then multiset{} else multiset{b.value}
  }

  lemma {:induction false} SmallestIsLeast(fl: seq<Block>, n: nat)
    requires 0 < n <= |fl|
    ensures forall k: nat :: k < n ==> fl[SmallestBelow(fl, n)].size <= fl[k].size
    ensures forall k: nat :: k < SmallestBelow(fl, n) ==> fl[SmallestBelow(fl, n)].size < fl[k].size
    decreases n
  {
    if n > 1 {
      SmallestIsLeast(fl, n - 1);
    }
  }

  lemma WithoutMultiset(fl: seq<Block>, i: nat)
    requires i < |fl|
    ensures multiset(Without(fl, i)) + multiset{fl[i]} == multiset(fl)
  {
    assert fl == fl[..i] + ([fl[i]] + fl[i + 1..]);
  }

  /** Nothing is lost or duplicated. */
  lemma InsertConserves(fl: seq<Block>, b: Block)
    ensures var (fl', leaked) := Insert(fl, b);
      multiset(fl') + AsMultiset(leaked) == multiset(fl) + multiset{b}
  {
    hide Smallest;
    if b.size >= HEADER_SIZE {
      if |fl| < MAX_ENTRIES {
        assert multiset([b] + fl) == multiset{b} + multiset(fl);
      } else if b.size > fl[Smallest(fl)].size {
        WithoutMultiset(fl, Smallest(fl));
        assert multiset([b] + Without(fl, Smallest(fl))) == multiset{b} + multiset(Without(fl, Smallest(fl)));
      }
    }
  }

  /** At most 16 blocks are kept, and a block of header size or more is leaked only from a full
      list, and then no block that stays is smaller. */
  lemma InsertEvictsSmallest(fl: seq<Block>, b: Block)
    requires |fl| <= 16
    ensures var (fl', leaked) := Insert(fl, b);
      && |fl'| <= 16
      && (leaked.Some? && b.size >= 16 ==>
            |fl| == 16 && (forall x :: x in fl' ==> leaked.value.size <= x.size) && leaked.value.size <= b.size)
  {
    if |fl| == MAX_ENTRIES {
      SmallestIsLeast(fl, |fl|);
    }
  }

  /** A freed block is leaked exactly when it is too small for the two words of a list entry, or when
      the list is full and no entry is smaller. */
  lemma LeaksExactly(fl: seq<Block>, b: Block)
    ensures Insert(fl, b).1 == Some(b) && Insert(fl, b).0 == fl <==>
      b.size < 16 || (|fl| >= 16 && forall x :: x in fl ==> b.size <= x.size)
    ensures b.size == 15 ==> Insert(fl, b) == (fl, Some(b))
    ensures b.size == 16 && |fl| < 16 ==> Insert(fl, b) == ([b] + fl, None)
  {
    if |fl| >= 16 && b.size >= 16 {
      SmallestIsLeast(fl, |fl|);
      assert fl[Smallest(fl)] in fl;
      if b.size > fl[Smallest(fl)].size {
        assert ([b] + Without(fl, Smallest(fl)))[0] == b;
        assert Insert(fl, b).1.value.size < b.size;
      }
    }
  }

  // ----- search -----

  /** Index of the first block of at least the given size, or the length of the list. */
  function FirstFit(fl: seq<Block>, size: nat): (i: nat)
    ensures i <= |fl|
    ensures i < |fl| ==> fl[i].size >= size
    ensures forall k: nat :: k < i ==> fl[k].size < size
  {
    if fl == [] || fl[0].size >= size then 0 else 1 + FirstFit(fl[1..], size)
  }

  function RoundUp(n: nat, unit: nat): (r: nat)
    requires unit > 0
    ensures n <= r < n + unit && r % unit == 0
  {
    if n % unit == 0 then n else RoundedUp(n, unit); n + (unit - n % unit)
  }

  lemma RoundedUp(n: nat, unit: nat)
    requires unit > 0 && n % unit != 0
    ensures (n + (unit - n % unit)) % unit == 0
  {
    var q := n / unit;
    var m := n + (unit - n % unit);
    assert m == unit * (q + 1);
    var q', r := m / unit, m % unit;
    assert unit * (q + 1 - q') == r;
    if q' < q + 1 {
      Bits.MulMono(unit, 1, q + 1 - q');
    } else if q' > q + 1 {
      Bits.MulMono(unit, q + 1 - q', -1);
    }
  }

  /** The head of a state->freelist list, updated in place. */
  class List {
    var freelist: seq<Block>

    constructor ()
      ensures freelist == []
    {
      freelist := [];
    }

    /** backtrace_free_locked. */
    method FreeLocked(b: Block) returns (leaked: Option<Block>)
      modifies `freelist
      ensures (freelist, leaked) == Insert(old(freelist), b)
    {
      if b.size < HEADER_SIZE {
        return Some(b);
      }
      var c: nat, ppsmall: nat := 0, 0;
      while c < |freelist|
        invariant c <= |freelist| && freelist == old(freelist)
        invariant c > 0 ==> ppsmall == SmallestBelow(freelist, c)
      {
        if c == 0 || freelist[c].size < freelist[ppsmall].size {
          ppsmall := c;
        }
        c := c + 1;
      }
      leaked := None;
      if c >= MAX_ENTRIES {
        if b.size <= freelist[ppsmall].size {
          return Some(b);
        }
        leaked := Some(freelist[ppsmall]);
        freelist := Without(freelist, ppsmall);
      }
      freelist := [b] + freelist;
    }

    /** The search loop of backtrace_alloc: unlinks the first block that is large enough. */
    method TakeFirstFit(size: nat) returns (p: Option<Block>)
      modifies `freelist
      ensures var i := FirstFit(old(freelist), size);
        if i < |old(freelist)| then p == Some(old(freelist)[i]) && freelist == Without(old(freelist), i)
        else p == None && freelist == old(freelist)
    {
      var pp: nat := 0;
      while pp < |freelist|
        invariant pp <= |freelist| && freelist == old(freelist)
        invariant FirstFit(freelist, size) == pp + FirstFit(freelist[pp..], size)
      {
        if freelist[pp].size >= size {
          p := Some(freelist[pp]);
          freelist := Without(freelist, pp);
          return;
        }
        pp := pp + 1;
      }
      p := None;
    }

    /** The locked part of backtrace_alloc: takes a block and puts back what rounding up to eight
        bytes leaves of it. */
    method AllocLocked(size: nat) returns (ret: Option<Block>, leaked: Option<Block>)
      modifies `freelist
      ensures var i := FirstFit(old(freelist), size);
        if i < |old(freelist)| then
          var p := old(freelist)[i];
          && ret == Some(p)
          && (freelist, leaked) == if RoundUp(size, 8) < p.size
                                   then Insert(Without(old(freelist), i), Block(p.addr + RoundUp(size, 8), p.size - RoundUp(size, 8)))
                                   else (Without(old(freelist), i), None)
        else ret == None && leaked == None && freelist == old(freelist)
    {
      leaked := None;
      ret := TakeFirstFit(size);
      if ret.Some? {
        var p := ret.value;
        var rounded := RoundUp(size, 8);
        if rounded < p.size {
          leaked := FreeLocked(Block(p.addr + rounded, p.size - rounded));
        }
      }
    }
  }
}
