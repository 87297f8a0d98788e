/** What a partly built decoding table holds, and why each step of elf_zlib_inflate_table keeps
    it that way.  `done` is the set of symbols already installed, `next` the first free offset of
    the secondary area. */
module TableLayout {
  import opened Bits
  import opened CanonicalCode
  import opened HiddenSymbol
  import opened HuffmanTable

  const SECONDARY_SIZE: nat := TABLE_SIZE - PRIMARY

  predicate IsShort(lens: seq<nat>, u: nat) {
    u < |lens| && u < VALUE_LIMIT && 0 < lens[u] <= 8
  }

  predicate IsLong(lens: seq<nat>, u: nat) {
    u < |lens| && u < VALUE_LIMIT && 8 < lens[u] <= MAX_BITS
  }

  function PrimaryOf(lens: seq<nat>, u: nat): nat
    requires u < |lens|
  {
    RevCode(lens, u) % PRIMARY
  }

  /** Every primary index that starts with the short code of u holds u. */
  ghost predicate ShortDone(t: seq<nat>, lens: seq<nat>, u: nat)
    requires |t| == TABLE_SIZE && IsShort(lens, u)
  {
    forall i: nat :: i < PRIMARY && Low(i, lens[u]) == RevCode(lens, u) ==> t[i] == Entry(u, lens[u] - 1)
  }

  /** Offset k of the secondary table for the first eight bits continues with the code of u. */
  predicate Continues(lens: seq<nat>, u: nat, k: nat)
    requires IsLong(lens, u)
  {
    Low(k, lens[u] - 8) == RevCode(lens, u) / PRIMARY
  }

  ghost predicate LongDone(t: seq<nat>, lens: seq<nat>, u: nat)
    requires |t| == TABLE_SIZE && IsLong(lens, u)
  {
    var e := t[PrimaryOf(lens, u)];
    && IsSecondary(e)
    && lens[u] - 8 <= SizeBits(e)
    && Value(e) + Pow2(SizeBits(e)) <= SECONDARY_SIZE
    && forall k: nat :: k < Pow2(SizeBits(e)) && Continues(lens, u, k)
                        ==> t[PRIMARY + Value(e) + k] == Entry(u, lens[u] - 8)
  }

  ghost predicate Done(t: seq<nat>, lens: seq<nat>, u: nat)
    requires |t| == TABLE_SIZE
  {
    if IsShort(lens, u) then ShortDone(t, lens, u)
    else IsLong(lens, u) && LongDone(t, lens, u)
  }

  lemma EntryFields(u: nat, b: nat)
    requires u < VALUE_LIMIT && b < 8
    ensures Value(Entry(u, b)) == u && SizeBits(Entry(u, b)) == b && !IsSecondary(Entry(u, b))
    ensures Value(Entry(u, b) + SECONDARY_FLAG) == u && SizeBits(Entry(u, b) + SECONDARY_FLAG) == b
    ensures IsSecondary(Entry(u, b) + SECONDARY_FLAG)
  {
  }

  lemma LowByte(x: nat)
    ensures Low(x, 8) == x % PRIMARY && Shr(x, 8) == x / PRIMARY
  {
    ShiftMeaning(x, 8);
    assert Pow2(8) == 256;
  }

  /** A long code matches a window exactly when its first eight bits and its continuation do. */
  lemma LongMatches(lens: seq<nat>, u: nat, w: nat)
    requires IsLong(lens, u)
    ensures Matches(lens, u, w) <==> w % PRIMARY == PrimaryOf(lens, u) && Continues(lens, u, w / PRIMARY)
  {
    var c, j := RevCode(lens, u), lens[u];
    RevBound(Code(lens, u), j);
    LowSmall(c, j);
    LowByte(w);
    LowByte(c);
    LowSplit(w, 8, j - 8);
    Split(c, 8);
    LowLow(w, 8, j);
    ShrLow(w, 8, j - 8);
  }

  /** Once every symbol with a code is installed, the table decodes exactly. */
  lemma DoneLookup(t: seq<nat>, lens: seq<nat>, u: nat, w: nat)
    requires |t| == TABLE_SIZE && Done(t, lens, u) && Matches(lens, u, w)
    ensures Lookup(t, w) == (u, lens[u])
  {
    LowByte(w);
    if IsShort(lens, u) {
      LowLow(w, lens[u], 8);
      EntryFields(u, lens[u] - 1);
    } else {
      LongMatches(lens, u, w);
      var e, j := t[PrimaryOf(lens, u)], lens[u];
      var k := Low(w / PRIMARY, SizeBits(e));
      LowLow(w / PRIMARY, j - 8, SizeBits(e));
      LowBound(w / PRIMARY, SizeBits(e));
      assert LongDone(t, lens, u);
      assert Continues(lens, u, k);
      assert t[PRIMARY + Value(e) + k] == Entry(u, j - 8);
      EntryFields(u, j - 8);
    }
  }

  // ----- the invariant of a partly built table -----

  /** A non-zero primary entry belongs to an installed short code or heads a secondary table. */
  ghost predicate PrimaryOwned(t: seq<nat>, lens: seq<nat>, done: set<nat>, next: nat, p: nat)
    requires |t| == TABLE_SIZE && p < PRIMARY
  {
    if IsSecondary(t[p]) then Value(t[p]) + Pow2(SizeBits(t[p])) <= next
    else t[p] == 0 || exists u :: u in done && IsShort(lens, u) && Matches(lens, u, p)
  }

  /** Entry x of the secondary area holds the installed long code u. */
  ghost predicate Holds(t: seq<nat>, lens: seq<nat>, u: nat, x: nat)
    requires |t| == TABLE_SIZE
  {
    && IsLong(lens, u)
    && var e := t[PrimaryOf(lens, u)];
    && IsSecondary(e)
    && Value(e) <= x < Value(e) + Pow2(SizeBits(e))
    && Continues(lens, u, x - Value(e))
  }

  ghost predicate RegionsDisjoint(e: nat, f: nat) {
    Value(e) + Pow2(SizeBits(e)) <= Value(f) || Value(f) + Pow2(SizeBits(f)) <= Value(e)
  }

  ghost predicate Layout(t: seq<nat>, lens: seq<nat>, done: set<nat>, next: nat) {
    && |t| == TABLE_SIZE
    && next <= SECONDARY_SIZE
    && (forall u :: u in done ==> Done(t, lens, u) && !Hidden(lens, u))
    && (forall p: nat :: p < PRIMARY ==> PrimaryOwned(t, lens, done, next, p))
    && (forall p: nat, q: nat :: p < q < PRIMARY && IsSecondary(t[p]) && IsSecondary(t[q])
                               ==> RegionsDisjoint(t[p], t[q]))
    && (forall y: nat :: PRIMARY <= y < TABLE_SIZE ==>
          t[y] == 0 || exists u :: u in done && Holds(t, lens, u, y - PRIMARY))
  }

  lemma LayoutEmpty(t: seq<nat>, lens: seq<nat>)
    requires |t| == TABLE_SIZE && forall i: nat :: i < TABLE_SIZE ==> t[i] == 0
    ensures Layout(t, lens, {}, 0)
  {
  }

  // ----- short codes -----

  /** t' is t with the short symbol v written at every index that starts with its code. */
  ghost predicate ShortWrite(t: seq<nat>, t': seq<nat>, lens: seq<nat>, v: nat)
    requires |t| == |t'| == TABLE_SIZE && IsShort(lens, v)
  {
    forall i: nat :: i < TABLE_SIZE ==>
      t'[i] == if i < PRIMARY && Low(i, lens[v]) == RevCode(lens, v) then Entry(v, lens[v] - 1) else t[i]
  }

  lemma NoSecondary(t: seq<nat>, lens: seq<nat>, done: set<nat>, y: nat)
    requires Layout(t, lens, done, 0) && PRIMARY <= y < TABLE_SIZE
    requires forall u :: u in done ==> IsShort(lens, u)
    ensures t[y] == 0
  {
  }

  lemma ShortStep(t: seq<nat>, t': seq<nat>, lens: seq<nat>, done: set<nat>, v: nat)
    requires Tame(lens) && Layout(t, lens, done, 0) && IsShort(lens, v) && v !in done && !Hidden(lens, v)
    requires forall u :: u in done ==> IsShort(lens, u)
    requires |t'| == TABLE_SIZE && ShortWrite(t, t', lens, v)
    ensures Layout(t', lens, done + {v}, 0)
  {
    var done' := done + {v};
    EntryFields(v, lens[v] - 1);
    forall u | u in done' ensures Done(t', lens, u) && !Hidden(lens, u) {
      if u != v {
        assert Done(t, lens, u) && !Hidden(lens, u);
        forall i: nat | i < PRIMARY && Low(i, lens[u]) == RevCode(lens, u)
          ensures t'[i] == Entry(u, lens[u] - 1)
        {
          if Low(i, lens[v]) == RevCode(lens, v) {
            Distinguished(lens, u, v, i);
          }
        }
      }
    }
    forall p: nat | p < PRIMARY ensures PrimaryOwned(t', lens, done', 0, p) {
      assert PrimaryOwned(t, lens, done, 0, p);
      if Low(p, lens[v]) == RevCode(lens, v) {
        assert v in done' && Matches(lens, v, p);
      }
    }
    forall y: nat | PRIMARY <= y < TABLE_SIZE ensures t'[y] == 0 {
      NoSecondary(t, lens, done, y);
    }
  }

  /** No index that starts with the code of a symbol not yet installed is in use. */
  lemma ShortFree(t: seq<nat>, lens: seq<nat>, done: set<nat>, v: nat, i: nat)
    requires Tame(lens) && Layout(t, lens, done, 0) && IsShort(lens, v) && v !in done && !Hidden(lens, v)
    requires i < PRIMARY && Matches(lens, v, i)
    ensures t[i] == 0
  {
    assert PrimaryOwned(t, lens, done, 0, i);
    if t[i] != 0 {
      var u :| u in done && IsShort(lens, u) && Matches(lens, u, i);
      assert !Hidden(lens, u);
      Distinguished(lens, u, v, i);
    }
  }

  // ----- long codes -----

  /** The first eight bits of a long code are never a whole short code that is not hidden. */
  lemma LongPrimary(t: seq<nat>, lens: seq<nat>, done: set<nat>, next: nat, v: nat)
    requires Tame(lens) && Layout(t, lens, done, next) && IsLong(lens, v)
    ensures t[PrimaryOf(lens, v)] == 0 || IsSecondary(t[PrimaryOf(lens, v)])
    ensures forall u: nat :: IsShort(lens, u) && !Hidden(lens, u) ==> !Matches(lens, u, PrimaryOf(lens, v))
  {
    var p, c := PrimaryOf(lens, v), RevCode(lens, v);
    assert PrimaryOwned(t, lens, done, next, p);
    forall u: nat | IsShort(lens, u) && !Hidden(lens, u) ensures !Matches(lens, u, p) {
      if Matches(lens, u, p) {
        LowByte(c);
        LowLow(c, lens[u], 8);
        RevBound(Code(lens, v), lens[v]);
        LowSmall(c, lens[v]);
        Distinguished(lens, u, v, c);
      }
    }
  }

  function Head(next: nat, bits: nat): nat {
    Entry(next, bits) + SECONDARY_FLAG
  }

  /** Starting a secondary table at the first free offset keeps the layout. */
  lemma NewSecondary(t: seq<nat>, lens: seq<nat>, done: set<nat>, next: nat, v: nat)
    requires Tame(lens) && Layout(t, lens, done, next) && IsLong(lens, v)
    requires t[PrimaryOf(lens, v)] == 0 && next < VALUE_LIMIT
    ensures next + Pow2(lens[v] - 8) <= SECONDARY_SIZE
    ensures Layout(t[PrimaryOf(lens, v) := Head(next, lens[v] - 8)], lens, done, next + Pow2(lens[v] - 8))
  {
    var p, bits := PrimaryOf(lens, v), lens[v] - 8;
    var t', next' := t[p := Head(next, bits)], next + Pow2(bits);
    EntryFields(next, bits);
    Pow2Mono(bits, 7);
    assert Pow2(7) == 128;
    NewSecondaryDone(t, lens, done, next, v, t');
    NewSecondaryRegions(t, lens, done, next, p, t', next');
    NewSecondaryHolders(t, lens, done, next, p, t');
  }

  /** t' differs from t only in the head entry of primary index p. */
  ghost predicate HeadAdded(t: seq<nat>, t': seq<nat>, p: nat) {
    |t| == |t'| == TABLE_SIZE && p < PRIMARY && t[p] == 0 && t' == t[p := t'[p]] && IsSecondary(t'[p])
  }

  lemma NewSecondaryDone(t: seq<nat>, lens: seq<nat>, done: set<nat>, next: nat, v: nat, t': seq<nat>)
    requires Tame(lens) && Layout(t, lens, done, next) && IsLong(lens, v)
    requires HeadAdded(t, t', PrimaryOf(lens, v))
    ensures forall u :: u in done ==> Done(t', lens, u)
  {
    LongPrimary(t, lens, done, next, v);
    forall u | u in done ensures Done(t', lens, u) {
      assert Done(t, lens, u) && !Hidden(lens, u);
      if IsShort(lens, u) {
        assert !Matches(lens, u, PrimaryOf(lens, v));
      }
    }
  }

  lemma NewSecondaryRegions(t: seq<nat>, lens: seq<nat>, done: set<nat>, next: nat, p: nat, t': seq<nat>, next': nat)
    requires Layout(t, lens, done, next) && HeadAdded(t, t', p) && next <= next'
    requires Value(t'[p]) == next && next + Pow2(SizeBits(t'[p])) == next'
    ensures forall q: nat :: q < PRIMARY ==> PrimaryOwned(t', lens, done, next', q)
    ensures forall q: nat, r: nat :: q < r < PRIMARY && IsSecondary(t'[q]) && IsSecondary(t'[r])
                                     ==> RegionsDisjoint(t'[q], t'[r])
  {
    forall q: nat | q < PRIMARY ensures PrimaryOwned(t', lens, done, next', q) {
      assert PrimaryOwned(t, lens, done, next, q);
    }
    forall q: nat, r: nat | q < r < PRIMARY && IsSecondary(t'[q]) && IsSecondary(t'[r])
      ensures RegionsDisjoint(t'[q], t'[r])
    {
      assert PrimaryOwned(t, lens, done, next, q);
      assert PrimaryOwned(t, lens, done, next, r);
    }
  }

  lemma NewSecondaryHolders(t: seq<nat>, lens: seq<nat>, done: set<nat>, next: nat, p: nat, t': seq<nat>)
    requires Layout(t, lens, done, next) && HeadAdded(t, t', p)
    ensures forall y: nat :: PRIMARY <= y < TABLE_SIZE ==>
              t'[y] == 0 || exists u :: u in done && Holds(t', lens, u, y - PRIMARY)
  {
    forall y: nat | PRIMARY <= y < TABLE_SIZE
      ensures t'[y] == 0 || exists u :: u in done && Holds(t', lens, u, y - PRIMARY)
    {
      if t[y] != 0 {
        var u := Holder(t, lens, done, next, y);
        HoldsKept(t, t', lens, u, y - PRIMARY);
      }
    }
  }

  lemma Holder(t: seq<nat>, lens: seq<nat>, done: set<nat>, next: nat, y: nat) returns (u: nat)
    requires Layout(t, lens, done, next) && PRIMARY <= y < TABLE_SIZE && t[y] != 0
    ensures u in done && Holds(t, lens, u, y - PRIMARY)
  {
    u :| u in done && Holds(t, lens, u, y - PRIMARY);
  }

  lemma HoldsKept(t: seq<nat>, t': seq<nat>, lens: seq<nat>, u: nat, x: nat)
    requires |t| == |t'| == TABLE_SIZE && Holds(t, lens, u, x)
    requires t'[PrimaryOf(lens, u)] == t[PrimaryOf(lens, u)]
    ensures Holds(t', lens, u, x)
  {
  }

  /** t' is t with the long symbol v written wherever the table of its first eight bits continues
      with its code. */
  ghost predicate LongWrite(t: seq<nat>, t': seq<nat>, lens: seq<nat>, v: nat)
    requires |t| == |t'| == TABLE_SIZE && IsLong(lens, v)
  {
    var e := t[PrimaryOf(lens, v)];
    forall i: nat :: i < TABLE_SIZE ==>
      t'[i] == if PRIMARY + Value(e) <= i < PRIMARY + Value(e) + Pow2(SizeBits(e))
                  && Continues(lens, v, i - PRIMARY - Value(e))
               then Entry(v, lens[v] - 8) else t[i]
  }

  /** Two symbols cannot continue the same first eight bits in the same way. */
  lemma LongDistinct(lens: seq<nat>, u: nat, v: nat, k: nat)
    requires Tame(lens) && IsLong(lens, u) && IsLong(lens, v)
    requires PrimaryOf(lens, u) == PrimaryOf(lens, v) && Continues(lens, u, k) && Continues(lens, v, k)
    ensures u == v
  {
    var w := JoinByte(PrimaryOf(lens, u), k);
    LongMatches(lens, u, w);
    LongMatches(lens, v, w);
    Distinguished(lens, u, v, w);
  }

  lemma JoinByte(p: nat, k: nat) returns (w: nat)
    requires p < PRIMARY
    ensures w % PRIMARY == p && w / PRIMARY == k
  {
    w := p + k * PRIMARY;
  }

  lemma Apart(t: seq<nat>, lens: seq<nat>, done: set<nat>, next: nat, p: nat, q: nat)
    requires Layout(t, lens, done, next)
    requires p < PRIMARY && q < PRIMARY && p != q && IsSecondary(t[p]) && IsSecondary(t[q])
    ensures RegionsDisjoint(t[p], t[q])
  {
  }

  /** The secondary entries of an installed symbol are not where another is written. */
  lemma LongApart(t: seq<nat>, lens: seq<nat>, done: set<nat>, next: nat, u: nat, v: nat, k: nat)
    requires Tame(lens) && Layout(t, lens, done, next) && IsLong(lens, v) && IsLong(lens, u) && u != v
    requires IsSecondary(t[PrimaryOf(lens, u)]) && IsSecondary(t[PrimaryOf(lens, v)])
    requires k < Pow2(SizeBits(t[PrimaryOf(lens, u)])) && Continues(lens, u, k)
    ensures var e, f := t[PrimaryOf(lens, u)], t[PrimaryOf(lens, v)];
      !(Value(f) <= Value(e) + k < Value(f) + Pow2(SizeBits(f)) && Continues(lens, v, Value(e) + k - Value(f)))
  {
    var p, q := PrimaryOf(lens, u), PrimaryOf(lens, v);
    if p == q {
      if Continues(lens, v, k) {
        LongDistinct(lens, u, v, k);
      }
    } else {
      Apart(t, lens, done, next, p, q);
    }
  }

  lemma DoneIn(t: seq<nat>, lens: seq<nat>, done: set<nat>, next: nat, u: nat)
    requires Layout(t, lens, done, next) && u in done
    ensures |t| == TABLE_SIZE && Done(t, lens, u)
  {
  }

  lemma LongKeptAt(t: seq<nat>, t': seq<nat>, lens: seq<nat>, done: set<nat>, next: nat, u: nat, v: nat, k: nat)
    requires Tame(lens) && Layout(t, lens, done, next) && IsLong(lens, v) && IsLong(lens, u) && u != v
    requires IsSecondary(t[PrimaryOf(lens, v)]) && |t'| == TABLE_SIZE && LongWrite(t, t', lens, v)
    requires LongDone(t, lens, u) && k < Pow2(SizeBits(t[PrimaryOf(lens, u)])) && Continues(lens, u, k)
    ensures t'[PRIMARY + Value(t[PrimaryOf(lens, u)]) + k] == Entry(u, lens[u] - 8)
  {
    LongApart(t, lens, done, next, u, v, k);
    hide Layout, Tame, PrimaryOf, Continues;
    assert t[PRIMARY + Value(t[PrimaryOf(lens, u)]) + k] == Entry(u, lens[u] - 8);
  }

  lemma LongNotShort(lens: seq<nat>, u: nat)
    requires IsLong(lens, u)
    ensures !IsShort(lens, u)
  {
  }

  /** A long code is written behind the primary entries. */
  lemma PrimaryKept(t: seq<nat>, t': seq<nat>, lens: seq<nat>, u: nat, v: nat)
    requires IsLong(lens, v) && IsLong(lens, u) && |t| == |t'| == TABLE_SIZE && LongWrite(t, t', lens, v)
    ensures PrimaryOf(lens, u) < TABLE_SIZE && t'[PrimaryOf(lens, u)] == t[PrimaryOf(lens, u)]
  {
    hide Continues, RevCode;
  }

  /** The secondary entries of an installed symbol survive the installation of another. */
  lemma LongKept(t: seq<nat>, t': seq<nat>, lens: seq<nat>, done: set<nat>, next: nat, u: nat, v: nat)
    requires Tame(lens) && Layout(t, lens, done, next) && IsLong(lens, v) && v !in done
    requires IsSecondary(t[PrimaryOf(lens, v)])
    requires |t'| == TABLE_SIZE && LongWrite(t, t', lens, v)
    requires u in done && IsLong(lens, u)
    ensures LongDone(t', lens, u)
  {
    hide Layout, Tame, LongWrite, PrimaryOf, Continues, IsShort;
    DoneIn(t, lens, done, next, u);
    LongNotShort(lens, u);
    PrimaryKept(t, t', lens, u, v);
    var e := t[PrimaryOf(lens, u)];
    forall k: nat | k < Pow2(SizeBits(e)) && Continues(lens, u, k)
      ensures t'[PRIMARY + Value(e) + k] == Entry(u, lens[u] - 8)
    {
      LongKeptAt(t, t', lens, done, next, u, v, k);
    }
  }

  lemma LongStepDone(t: seq<nat>, t': seq<nat>, lens: seq<nat>, done: set<nat>, next: nat, v: nat, u: nat)
    requires Tame(lens) && Layout(t, lens, done, next) && IsLong(lens, v) && v !in done
    requires IsSecondary(t[PrimaryOf(lens, v)])
    requires lens[v] - 8 <= SizeBits(t[PrimaryOf(lens, v)])
    requires |t'| == TABLE_SIZE && LongWrite(t, t', lens, v)
    requires u in done + {v}
    ensures Done(t', lens, u) && !Hidden(lens, u)
  {
    assert forall p: nat :: p < PRIMARY ==> t'[p] == t[p];
    assert PrimaryOwned(t, lens, done, next, PrimaryOf(lens, v));
    if u != v {
      assert Done(t, lens, u);
      if !IsShort(lens, u) {
        LongKept(t, t', lens, done, next, u, v);
      }
    }
  }

  lemma LongStep(t: seq<nat>, t': seq<nat>, lens: seq<nat>, done: set<nat>, next: nat, v: nat)
    requires Tame(lens) && Layout(t, lens, done, next) && IsLong(lens, v) && v !in done
    requires IsSecondary(t[PrimaryOf(lens, v)])
    requires lens[v] - 8 <= SizeBits(t[PrimaryOf(lens, v)])
    requires |t'| == TABLE_SIZE && LongWrite(t, t', lens, v)
    ensures Layout(t', lens, done + {v}, next)
  {
    var done' := done + {v};
    assert forall p: nat :: p < PRIMARY ==> t'[p] == t[p];
    forall u | u in done' ensures Done(t', lens, u) && !Hidden(lens, u) {
      LongStepDone(t, t', lens, done, next, v, u);
    }
    hide Done, Hidden, LongWrite;
    forall p: nat | p < PRIMARY ensures PrimaryOwned(t', lens, done', next, p) {
      assert PrimaryOwned(t, lens, done, next, p);
    }
    LongStepOwners(t, t', lens, done, next, v);
  }

  lemma LongStepOwner(t: seq<nat>, t': seq<nat>, lens: seq<nat>, done: set<nat>, next: nat, v: nat, y: nat) returns (u: nat)
    requires Layout(t, lens, done, next) && IsLong(lens, v)
    requires IsSecondary(t[PrimaryOf(lens, v)])
    requires |t'| == TABLE_SIZE && LongWrite(t, t', lens, v) && PRIMARY <= y < TABLE_SIZE && t'[y] != 0
    ensures u in done + {v} && Holds(t', lens, u, y - PRIMARY)
  {
    assert |t| == TABLE_SIZE;
    hide Layout, RevCode, Continues, Pow2;
    var e := t[PrimaryOf(lens, v)];
    if PRIMARY + Value(e) <= y < PRIMARY + Value(e) + Pow2(SizeBits(e)) && Continues(lens, v, y - PRIMARY - Value(e)) {
      u := v;
    } else {
      u := Holder(t, lens, done, next, y);
      HoldsKept(t, t', lens, u, y - PRIMARY);
    }
  }

  lemma LongStepOwners(t: seq<nat>, t': seq<nat>, lens: seq<nat>, done: set<nat>, next: nat, v: nat)
    requires Layout(t, lens, done, next) && IsLong(lens, v)
    requires IsSecondary(t[PrimaryOf(lens, v)])
    requires |t'| == TABLE_SIZE && LongWrite(t, t', lens, v)
    ensures forall y: nat :: PRIMARY <= y < TABLE_SIZE ==>
              t'[y] == 0 || exists u :: u in done + {v} && Holds(t', lens, u, y - PRIMARY)
  {
    hide Layout, LongWrite, Holds, PrimaryOf;
    forall y: nat | PRIMARY <= y < TABLE_SIZE && t'[y] != 0
      ensures exists u :: u in done + {v} && Holds(t', lens, u, y - PRIMARY)
    {
      var u := LongStepOwner(t, t', lens, done, next, v, y);
    }
  }

  /** Nothing occupies the entries of a symbol that is not yet installed. */
  lemma LongFree(t: seq<nat>, lens: seq<nat>, done: set<nat>, next: nat, v: nat, k: nat)
    requires Tame(lens) && Layout(t, lens, done, next) && IsLong(lens, v) && v !in done
    requires IsSecondary(t[PrimaryOf(lens, v)])
    requires k < Pow2(SizeBits(t[PrimaryOf(lens, v)])) && Continues(lens, v, k)
    ensures Value(t[PrimaryOf(lens, v)]) + k < SECONDARY_SIZE
    ensures t[PRIMARY + Value(t[PrimaryOf(lens, v)]) + k] == 0
  {
    var f := t[PrimaryOf(lens, v)];
    assert PrimaryOwned(t, lens, done, next, PrimaryOf(lens, v));
    var y := PRIMARY + Value(f) + k;
    if t[y] != 0 {
      var u := Holder(t, lens, done, next, y);
      var p, q := PrimaryOf(lens, u), PrimaryOf(lens, v);
      if p == q {
        LongDistinct(lens, u, v, k);
      } else {
        Apart(t, lens, done, next, p, q);
      }
    }
  }
}
