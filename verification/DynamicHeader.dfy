/** Section 3.2.7 of RFC 1951: the header of a block with dynamic Huffman codes, and the part of
    elf_zlib_inflate that reads it. */
module DynamicHeader {
  import opened Options
  import opened Bits
  import opened CanonicalCode
  import opened HiddenSymbol
  import opened HuffmanTable
  import opened TableSpace
  import opened TableBuilder
  import opened CompleteCodes
  import opened BitReader
  import opened Deflate
  import opened InflateBlock

  // ----- the code length code -----

  /** The order in which the code lengths for the code length alphabet are sent, and its inverse. */
  const ORDER: seq<nat> := [16, 17, 18, 0, 8, 7, 9, 6, 10, 5, 11, 4, 12, 3, 13, 2, 14, 1, 15]
  const PLACE: seq<nat> := [3, 17, 15, 13, 11, 9, 7, 5, 4, 6, 8, 10, 12, 14, 16, 18, 0, 1, 2]

  lemma OrderInverse(i: nat, s: nat)
    requires i < 19 && s < 19
    ensures ORDER[i] < 19 && (PLACE[s] == i <==> s == ORDER[i])
  {
  }

  /** The place at which the length of symbol s is sent. */
  function PlaceOf(s: nat): nat
    requires s < 19
  {
    PLACE[s]
  }

  /** The lengths of the code length code, 3 bits each for the first nclen places of ORDER. */
  function CodeLengthCode(m: nat, pos: nat, nclen: nat): (lens: seq<nat>)
    ensures |lens| == 19
    ensures forall s: nat :: s < 19 ==> lens[s] <= 7
  {
    seq(19, (s: nat) requires s < 19 => OrderedField(m, pos, nclen, s))
  }

  function OrderedField(m: nat, pos: nat, nclen: nat, s: nat): (n: nat)
    requires s < 19
    ensures n <= 7
  {
    LowBound(Shr(m, pos + 3 * PlaceOf(s)), 3);
    if PlaceOf(s) < nclen then At(m, pos + 3 * PlaceOf(s), 3) else 0
  }

  /** lens holds the fields of the first i places. */
  ghost predicate FieldsRead(m: nat, pos: nat, i: nat, lens: seq<nat>) {
    |lens| == 19 && forall s: nat :: s < 19 ==> lens[s] == OrderedField(m, pos, i, s)
  }

  lemma FieldStep(m: nat, pos: nat, i: nat, lens: seq<nat>, n: nat)
    requires FieldsRead(m, pos, i, lens) && i < 19 && n == At(m, pos + 3 * i, 3)
    ensures ORDER[i] < 19 && FieldsRead(m, pos, i + 1, lens[ORDER[i] := n])
  {
    OrderInverse(i, 0);
    var lens', j := lens[ORDER[i] := n], i + 1;
    forall s: nat | s < 19 ensures lens'[s] == OrderedField(m, pos, j, s) {
      OrderInverse(i, s);
    }
  }

  method ReadCodeLengthCode(r: Reservoir, nclen: nat) returns (ok: bool, lens: seq<nat>)
    requires r.Valid() && r.Aligned() && nclen <= 19
    modifies r
    ensures r.Valid() && r.Aligned() && r.Pos() >= old(r.Pos()) && r.Limit() == old(r.Limit())
    ensures |lens| == 19 && forall s: nat :: s < 19 ==> lens[s] <= 7
    ensures ok ==> lens == CodeLengthCode(r.Stream(), old(r.Pos()), nclen) && r.Pos() == old(r.Pos()) + 3 * nclen
    ensures !ok ==> r.Starved() && r.Pos() < old(r.Pos()) + 3 * nclen
  {
    lens := seq(19, _ => 0);
    var i: nat, sinceFetch: nat := 0, 0;
    while i < nclen
      invariant i <= nclen && r.Valid() && r.Aligned() && r.Pos() == old(r.Pos()) + 3 * i
      invariant r.Limit() == old(r.Limit())
      invariant sinceFetch < 5 && (sinceFetch != 0 ==> r.bits + 3 * sinceFetch >= 15)
      invariant FieldsRead(r.Stream(), old(r.Pos()), i, lens)
    {
      if sinceFetch == 0 {
        ok := r.Fetch();
        if !ok {
          return;
        }
      }
      var n := r.Take(3);
      FieldStep(r.Stream(), old(r.Pos()), i, lens, n);
      lens := lens[ORDER[i] := n];
      i := i + 1;
      sinceFetch := if sinceFetch == 4 then 0 else sinceFetch + 1;
    }
    ok := true;
  }

  // ----- run-length coded code lengths -----

  /** A symbol of the code length alphabet with its extra bits. */
  datatype Item = Item(sym: nat, extra: nat)

  function ItemExtra(sym: nat): nat {
    if sym == 16 then 2 else if sym == 17 then 3 else if sym == 18 then 7 else 0
  }

  predicate ItemAt(m: nat, pos: nat, clens: seq<nat>, it: Item) {
    && it.sym <= 18
    && SymbolAt(m, pos, clens, it.sym)
    && At(m, pos + LenAt(clens, it.sym), ItemExtra(it.sym)) == it.extra
  }

  function ItemEnd(pos: nat, clens: seq<nat>, it: Item): nat {
    pos + LenAt(clens, it.sym) + ItemExtra(it.sym)
  }

  predicate ItemsAt(m: nat, pos: nat, clens: seq<nat>, its: seq<Item>)
    decreases its
  {
    its == [] || (ItemAt(m, pos, clens, its[0]) && ItemsAt(m, ItemEnd(pos, clens, its[0]), clens, its[1..]))
  }

  function ItemsEnd(pos: nat, clens: seq<nat>, its: seq<Item>): nat
    decreases its
  {
    if its == [] then pos else ItemsEnd(ItemEnd(pos, clens, its[0]), clens, its[1..])
  }

  function Copies(n: nat, x: nat): (s: seq<nat>)
    ensures |s| == n
  {
    seq(n, _ => x)
  }

  /** 0..15 is a length; 16 copies the previous length 3..6 times; 17 and 18 are runs of zeros. */
  function Apply(lens: seq<nat>, it: Item): Option<seq<nat>> {
    if it.sym < 16 then Some(lens + [it.sym])
    else if it.sym == 16 then
      if lens == [] then None else Some(lens + Copies(3 + it.extra, lens[|lens| - 1]))
    else if it.sym == 17 then Some(lens + Copies(3 + it.extra, 0))
    else Some(lens + Copies(11 + it.extra, 0))
  }

  function ApplyAll(lens: seq<nat>, its: seq<Item>): Option<seq<nat>>
    decreases its
  {
    if its == [] then Some(lens)
    else match Apply(lens, its[0])
      case None => None
      case Some(lens') => ApplyAll(lens', its[1..])
  }

  lemma {:induction false} ApplyGrows(lens: seq<nat>, its: seq<Item>)
    requires ApplyAll(lens, its).Some?
    ensures |ApplyAll(lens, its).value| >= |lens| + |its|
    decreases its
  {
    if its != [] {
      ApplyGrows(Apply(lens, its[0]).value, its[1..]);
    }
  }

  // ----- what the items mean -----

  /** The lengths from a on, up to b, that item it stands for.  Section 3.2.7: 0 to 15 are lengths; 16
      repeats the previous length 3 to 6 times; 17 and 18 are 3 to 10 and 11 to 138 zeros. */
  ghost predicate Means(it: Item, lens: seq<nat>, a: nat, b: nat) {
    && a < b <= |lens|
    && (it.sym < 16 ==> b == a + 1 && lens[a] == it.sym)
    && (it.sym == 16 ==> 0 < a && 3 <= b - a <= 6 && forall j: nat :: a <= j < b ==> lens[j] == lens[j - 1])
    && (it.sym == 17 ==> 3 <= b - a <= 10 && forall j: nat :: a <= j < b ==> lens[j] == 0)
    && (it.sym == 18 ==> 11 <= b - a <= 138 && forall j: nat :: a <= j < b ==> lens[j] == 0)
    && (16 <= it.sym <= 18 ==> b - a == it.extra + if it.sym == 18 then 11 else 3)
  }

  /** An item with as many extra bits as are read for it. */
  predicate InRange(it: Item) {
    it.sym <= 18 && it.extra < Pow2(ItemExtra(it.sym))
  }

  lemma ApplyMeans(lens: seq<nat>, it: Item)
    requires InRange(it) && Apply(lens, it).Some?
    ensures var lens' := Apply(lens, it).value; lens <= lens' && Means(it, lens', |lens|, |lens'|)
  {
    assert Pow2(0) == 1 && Pow2(2) == 4 && Pow2(3) == 8 && Pow2(7) == 128;
  }

  lemma MeansExtends(it: Item, lens: seq<nat>, total: seq<nat>, a: nat, b: nat)
    requires Means(it, lens, a, b) && lens <= total
    ensures Means(it, total, a, b)
  {
  }

  /** The lengths after the first k items. */
  function After(lens: seq<nat>, its: seq<Item>, k: nat): seq<nat>
    requires k <= |its|
  {
    ApplyAll(lens, its[..k]).GetOr([])
  }

  lemma {:induction false} ApplyAllExtends(lens: seq<nat>, its: seq<Item>)
    requires ApplyAll(lens, its).Some? && forall i: nat :: i < |its| ==> InRange(its[i])
    ensures lens <= ApplyAll(lens, its).value
    decreases its
  {
    if its != [] {
      ApplyMeans(lens, its[0]);
      ApplyAllExtends(Apply(lens, its[0]).value, its[1..]);
    }
  }

  /** In the lengths that a sequence of items gives, each item stands for a stretch of its own, right
      behind that of the one before. */
  lemma {:induction false} ItemMeans(lens: seq<nat>, its: seq<Item>, k: nat)
    requires ApplyAll(lens, its).Some? && (forall i: nat :: i < |its| ==> InRange(its[i])) && k < |its|
    ensures var total := ApplyAll(lens, its).value;
      After(lens, its, 0) == lens && After(lens, its, k) <= total && After(lens, its, k + 1) <= total
      && Means(its[k], total, |After(lens, its, k)|, |After(lens, its, k + 1)|)
    ensures After(lens, its, |its|) == ApplyAll(lens, its).value
    decreases its
  {
    assert its[..0] == [] && its[..|its|] == its;
    ApplyMeans(lens, its[0]);
    var lens' := Apply(lens, its[0]).value;
    assert its[..k + 1][0] == its[0] && its[..k + 1][1..] == its[1..][..k];
    if k == 0 {
      assert its[..k + 1][1..] == [] && ApplyAll(lens', []) == Some(lens');
      assert ApplyAll(lens, its[..k + 1]) == ApplyAll(lens', its[..k + 1][1..]);
      assert After(lens, its, k + 1) == lens';
      ApplyAllExtends(lens', its[1..]);
      MeansExtends(its[0], lens', ApplyAll(lens, its).value, |lens|, |lens'|);
    } else {
      assert its[..k][0] == its[0] && its[..k][1..] == its[1..][..k - 1];
      ItemMeans(lens', its[1..], k - 1);
    }
  }

  /** What is read for the items is in range. */
  lemma {:induction false} ItemsInRange(m: nat, pos: nat, clens: seq<nat>, its: seq<Item>, k: nat)
    requires ItemsAt(m, pos, clens, its) && k < |its|
    ensures InRange(its[k])
    decreases its
  {
    if k == 0 {
      LowBound(Shr(m, pos + LenAt(clens, its[0].sym)), ItemExtra(its[0].sym));
    } else {
      ItemsInRange(m, ItemEnd(pos, clens, its[0]), clens, its[1..], k - 1);
    }
  }

  /** The code lengths of a header, item by item. */
  lemma HeaderMeans(m: nat, pos: nat, h: Header, k: nat)
    requires HeaderAt(m, pos, h) && k < |h.items|
    ensures var lens := LitLens(h) + DistLens(h);
      && |LitLens(h)| == h.nlit && |DistLens(h)| == h.ndist
      && After([], h.items, 0) == [] && After([], h.items, |h.items|) == lens
      && Means(h.items[k], lens, |After([], h.items, k)|, |After([], h.items, k + 1)|)
  {
    hide ItemsAt, CodeLengthCode, Fits, Means, After;
    forall i: nat | i < |h.items| ensures InRange(h.items[i]) {
      ItemsInRange(m, pos + 14 + 3 * h.nclen, CodeLengthCode(m, pos + 14, h.nclen), h.items, i);
    }
    ItemMeans([], h.items, k);
    assert LitLens(h) + DistLens(h) == AllLens(h);
  }

  /** For instance 8, 9, and 9 three times more. */
  lemma RepeatPrevious()
    ensures ApplyAll([], [Item(8, 0), Item(9, 0), Item(16, 0)]) == Some([8, 9, 9, 9, 9])
  {
    var its := [Item(8, 0), Item(9, 0), Item(16, 0)];
    var none: seq<nat>, lens: seq<nat> := [], [8, 9];
    assert its[1..] == [Item(9, 0), Item(16, 0)] && its[1..][1..] == [Item(16, 0)] && its[1..][1..][1..] == [];
    assert none + [8] == [8] && [8] + [9] == lens;
    assert lens + Copies(3, 9) == [8, 9, 9, 9, 9];
  }

  /** The places of the code length code: the three repeats and 0, then 8 and its neighbours on either
      side, ever farther away. */
  lemma OrderLaw(i: nat)
    requires i < 19
    ensures ORDER[i] == if i < 3 then 16 + i else if i == 3 then 0
                        else if i % 2 == 0 then 8 + (i - 4) / 2 else 8 - (i - 3) / 2
  {
  }

  lemma {:induction false} ItemsEndGrows(m: nat, pos: nat, clens: seq<nat>, its: seq<Item>)
    requires ItemsAt(m, pos, clens, its)
    ensures ItemsEnd(pos, clens, its) >= pos
    decreases its
  {
    if its != [] {
      ItemsEndGrows(m, ItemEnd(pos, clens, its[0]), clens, its[1..]);
    }
  }

  /** A table for codes of at most 7 bits answers in the primary part. */
  lemma NoSecondaryEntry(t: seq<nat>, clens: seq<nat>, s: nat, w: nat)
    requires Represents(t, clens) && Matches(clens, s, w) && clens[s] <= 7
    ensures !IsSecondary(t[w % PRIMARY])
  {
    assert Lookup(t, w) == (s, clens[s]);
  }

  /** One iteration of the loop over code lengths: reads an item and applies it to the lengths
      read so far, of which there are to be n. */
  method ReadItem(r: Reservoir, table: array<nat>, lens0: seq<nat>, n: nat, ghost clens: seq<nat>, ghost it: Item)
    returns (ok: bool, lens: seq<nat>)
    requires r.Valid() && r.Aligned() && table.Length == TABLE_SIZE && |lens0| < n
    modifies r
    ensures r.Valid() && r.Aligned() && r.Pos() >= old(r.Pos()) && r.Limit() == old(r.Limit())
    ensures ok ==> |lens0| < |lens| <= n
    ensures Fits(clens) && old(Represents(table[..], clens)) && old(ItemAt(r.Stream(), r.Pos(), clens, it))
            && LenAt(clens, it.sym) <= 7 ==>
      if ok then Apply(lens0, it) == Some(lens) && r.Pos() == ItemEnd(old(r.Pos()), clens, it)
      else (r.Starved() && r.Pos() < ItemEnd(old(r.Pos()), clens, it)) || Overlong(lens0, it, n)
  {
    var v;
    lens := lens0;
    ok, v := ReadItemSymbol(r, table, clens, it.sym);
    if ok {
      ok, lens := ApplySymbol(r, lens0, n, v);
    }
  }

  /** The item does not apply, or gives more than n lengths. */
  ghost predicate Overlong(lens: seq<nat>, it: Item, n: nat) {
    Apply(lens, it).None? || |Apply(lens, it).value| > n
  }

  /** Reads a symbol of the code length alphabet, whose codes need no secondary table. */
  method ReadItemSymbol(r: Reservoir, table: array<nat>, ghost clens: seq<nat>, ghost s: nat) returns (ok: bool,
                        sym: nat)
    requires r.Valid() && r.Aligned() && table.Length == TABLE_SIZE
    modifies r
    ensures r.Valid() && r.Aligned() && r.Pos() >= old(r.Pos()) && r.Limit() == old(r.Limit())
    ensures ok ==> r.bits >= 7
    ensures Fits(clens) && old(Represents(table[..], clens)) && old(SymbolAt(r.Stream(), r.Pos(), clens, s))
            && LenAt(clens, s) <= 7 ==>
      if ok then sym == s && r.Pos() == old(r.Pos()) + LenAt(clens, s)
      else r.Starved() && r.Pos() == old(r.Pos())
  {
    hide Fits, Low, Shr, Represents, RevCode;
    sym := 0;
    ok := r.Fetch();
    if !ok {
      return;
    }
    ghost var m, p := r.Stream(), r.Pos();
    if Fits(clens) && Represents(table[..], clens) && SymbolAt(m, p, clens, s) && LenAt(clens, s) <= 7 {
      MatchesLow(clens, s, Shr(m, p), r.bits);
      NoSecondaryEntry(table[..], clens, s, r.val);
    }
    if IsSecondary(table[r.val % PRIMARY]) {
      return false, sym;
    }
    sym := DecodePrimary(r, table, clens, s);
  }

  /** Applies a symbol, reading its extra bits. */
  method ApplySymbol(r: Reservoir, lens0: seq<nat>, n: nat, v: nat) returns (ok: bool, lens: seq<nat>)
    requires r.Valid() && r.bits >= 7 && |lens0| < n
    modifies r`val, r`bits
    ensures r.Valid() && r.Pos() >= old(r.Pos()) && r.Limit() == old(r.Limit())
    ensures ok ==> |lens0| < |lens| <= n
    ensures v <= 18 ==>
      var it := Item(v, At(r.Stream(), old(r.Pos()), ItemExtra(v)));
      if ok then Apply(lens0, it) == Some(lens) && r.Pos() == old(r.Pos()) + ItemExtra(v) else Overlong(lens0, it, n)
  {
    lens := lens0;
    if v < 16 {
      return true, lens0 + [v];
    } else if v == 16 {
      if lens0 == [] {
        return false, lens;
      }
      ok, lens := AppendRun(r, lens0, n, 3, 2, lens0[|lens0| - 1]);
    } else if v == 17 {
      ok, lens := AppendRun(r, lens0, n, 3, 3, 0);
    } else if v == 18 {
      ok, lens := AppendRun(r, lens0, n, 11, 7, 0);
    } else {
      ok := false;
    }
  }

  /** Looks up a symbol whose entry is known to be in the primary part. */
  method DecodePrimary(r: Reservoir, table: array<nat>, ghost lens: seq<nat>, ghost s: nat) returns (sym: nat)
    requires r.Valid() && r.bits >= 15 && table.Length == TABLE_SIZE && !IsSecondary(table[r.val % PRIMARY])
    modifies r`val, r`bits
    ensures r.Valid() && old(r.Pos()) < r.Pos() && r.bits >= 7 && r.Limit() == old(r.Limit())
    ensures Fits(lens) && Represents(table[..], lens) && old(SymbolAt(r.Stream(), r.Pos(), lens, s)) ==>
              sym == s && r.Pos() == old(r.Pos()) + LenAt(lens, s)
  {
    if Fits(lens) && SymbolAt(r.Stream(), r.Pos(), lens, s) {
      MatchesLow(lens, s, Shr(r.Stream(), r.Pos()), r.bits);
    }
    ghost var val0 := r.val;
    var e := table[r.val % PRIMARY];
    var _ := r.Take(SizeBits(e) + 1);
    sym := Value(e);
    assert (sym, SizeBits(e) + 1) == Lookup(table[..], val0);
  }

  /** Appends base plus the next `extra` bits copies of x, if they fit. */
  method AppendRun(r: Reservoir, lens0: seq<nat>, n: nat, base: nat, extra: nat, x: nat) returns (ok: bool,
                   lens: seq<nat>)
    requires r.Valid() && extra <= r.bits && |lens0| <= n && 0 < base
    modifies r`val, r`bits
    ensures r.Valid() && r.Pos() == old(r.Pos()) + extra && r.Limit() == old(r.Limit())
    ensures var c := base + At(r.Stream(), old(r.Pos()), extra);
      ok == (c <= n - |lens0|) && lens == if ok then lens0 + Copies(c, x) else lens0
  {
    var e := r.Take(extra);
    var c := base + e;
    if n - |lens0| < c {
      return false, lens0;
    }
    return true, lens0 + Copies(c, x);
  }

  /** The items still to come are its; they lead to the same lengths and end position as all. */
  ghost predicate ItemProgress(m: nat, pos: nat, clens: seq<nat>, lens: seq<nat>, its: seq<Item>, end: nat,
                               total: seq<nat>) {
    ItemsAt(m, pos, clens, its) && ItemsEnd(pos, clens, its) == end && ApplyAll(lens, its) == Some(total)
  }

  lemma ItemParts(m: nat, pos: nat, clens: seq<nat>, lens: seq<nat>, its: seq<Item>, end: nat, total: seq<nat>)
    requires ItemProgress(m, pos, clens, lens, its, end, total) && |lens| < |total|
    ensures its != [] && ItemAt(m, pos, clens, its[0]) && ItemEnd(pos, clens, its[0]) <= end
    ensures Apply(lens, its[0]).Some?
    ensures !Overlong(lens, its[0], |total|)
    ensures ItemProgress(m, ItemEnd(pos, clens, its[0]), clens, Apply(lens, its[0]).value, its[1..], end, total)
  {
    ApplyGrows(Apply(lens, its[0]).value, its[1..]);
    ItemsEndGrows(m, ItemEnd(pos, clens, its[0]), clens, its[1..]);
  }

  /** The loop over code lengths. */
  method ReadLengths(r: Reservoir, table: array<nat>, n: nat, ghost clens: seq<nat>, ghost its: seq<Item>)
    returns (ok: bool, lens: seq<nat>)
    requires r.Valid() && r.Aligned() && table.Length == TABLE_SIZE
    requires forall s: nat :: s < |clens| ==> clens[s] <= 7
    modifies r
    ensures r.Valid() && r.Aligned() && r.Pos() >= old(r.Pos()) && r.Limit() == old(r.Limit())
    ensures ok ==> |lens| == n
    ensures Fits(clens) && old(Represents(table[..], clens)) && old(ItemsAt(r.Stream(), r.Pos(), clens, its))
            && ApplyAll([], its).Some? && |ApplyAll([], its).value| == n ==>
      var end := ItemsEnd(old(r.Pos()), clens, its);
      if ok then Some(lens) == ApplyAll([], its) && r.Pos() == end else r.Starved() && r.Pos() < end
  {
    ghost var m, rest := r.Stream(), its;
    ghost var end := ItemsEnd(r.Pos(), clens, its);
    ghost var total := ApplyAll([], its).GetOr([]);
    ghost var carried := Fits(clens) && Represents(table[..], clens) && ItemProgress(m, r.Pos(), clens, [], its, end,
                              total) && |total| == n;
    lens := [];
    while |lens| < n
      invariant r.Valid() && r.Aligned() && r.Pos() >= old(r.Pos()) && |lens| <= n
      invariant r.Limit() == old(r.Limit())
      invariant table[..] == old(table[..])
      invariant carried ==> ItemProgress(m, r.Pos(), clens, lens, rest, end, total)
    {
      if carried {
        ItemParts(m, r.Pos(), clens, lens, rest, end, total);
      }
      ok, lens := ReadItem(r, table, lens, n, clens, if rest == [] then Item(0, 0) else rest[0]);
      if !ok {
        return;
      }
      rest := if rest == [] then [] else rest[1..];
    }
    if carried {
      ApplyGrows(lens, rest);
    }
    ok := true;
  }

  // ----- the whole header -----

  /** The counts of the header and the items that give the code lengths. */
  datatype Header = Header(nlit: nat, ndist: nat, nclen: nat, items: seq<Item>)

  function AllLens(h: Header): seq<nat> {
    ApplyAll([], h.items).GetOr([])
  }

  function LitLens(h: Header): seq<nat> {
    if h.nlit <= |AllLens(h)| then AllLens(h)[..h.nlit] else []
  }

  function DistLens(h: Header): seq<nat> {
    if h.nlit <= |AllLens(h)| then AllLens(h)[h.nlit..] else []
  }

  /** The counts and the code length code. */
  ghost predicate HeadAt(m: nat, pos: nat, h: Header) {
    && At(m, pos, 5) + 257 == h.nlit <= 286
    && At(m, pos + 5, 5) + 1 == h.ndist <= 30
    && At(m, pos + 10, 4) + 4 == h.nclen
    && Fits(CodeLengthCode(m, pos + 14, h.nclen))
  }

  /** The stream carries the header at pos: the code lengths it gives form codes, and the
      end-of-block symbol has one. */
  ghost predicate HeaderAt(m: nat, pos: nat, h: Header) {
    && HeadAt(m, pos, h)
    && ItemsAt(m, pos + 14 + 3 * h.nclen, CodeLengthCode(m, pos + 14, h.nclen), h.items)
    && ApplyAll([], h.items).Some? && |AllLens(h)| == h.nlit + h.ndist
    && Fits(LitLens(h)) && Fits(DistLens(h)) && LitLens(h)[END_OF_BLOCK] != 0
  }

  function HeaderEnd(m: nat, pos: nat, h: Header): nat {
    ItemsEnd(pos + 14 + 3 * h.nclen, CodeLengthCode(m, pos + 14, h.nclen), h.items)
  }

  /** The secondary tables of both codes have room. */
  ghost predicate TablesFit(h: Header) {
    RoomFor(LitLens(h)) && RoomFor(DistLens(h))
  }

  /** The code of the literals and lengths is complete, or of at most 264 symbols. */
  ghost predicate Dense(h: Header) {
    h.nlit <= 264 || Complete(LitLens(h))
  }

  /** For such a header both secondary areas are large enough. */
  lemma DenseTablesFit(m: nat, pos: nat, h: Header)
    requires HeaderAt(m, pos, h) && Dense(h)
    ensures TablesFit(h)
  {
    hide RoomFor, Complete, Fits;
    CompleteFits(LitLens(h));
    CompleteFits(DistLens(h));
  }

  /** The three counts. */
  method ReadCounts(r: Reservoir) returns (ok: bool, nlit: nat, ndist: nat, nclen: nat)
    requires r.Valid() && r.Aligned()
    modifies r
    ensures r.Valid() && r.Aligned() && r.Pos() >= old(r.Pos()) && r.Limit() == old(r.Limit())
    ensures ok ==> r.Pos() == old(r.Pos()) + 14
                   && nlit == At(r.Stream(), old(r.Pos()), 5) + 257
                   && ndist == At(r.Stream(), old(r.Pos()) + 5, 5) + 1
                   && nclen == At(r.Stream(), old(r.Pos()) + 10, 4) + 4 <= 19
    ensures !ok ==> r.Starved() && r.Pos() == old(r.Pos())
  {
    nlit, ndist, nclen := 0, 0, 0;
    ok := r.Fetch();
    if !ok {
      return;
    }
    ghost var p := r.Pos();
    nlit := r.Take(5);
    ndist := r.Take(5);
    nclen := r.Take(4);
    LowBound(Shr(r.Stream(), p + 10), 4);
    assert Pow2(4) == 16;
    nlit, ndist, nclen := nlit + 257, ndist + 1, nclen + 4;
  }

  /** Reads the counts and builds the table for the code length code. */
  method ReadCodeLengthTable(r: Reservoir, table: array<nat>, ghost h: Header)
    returns (ok: bool, nlit: nat, ndist: nat, ghost clens: seq<nat>)
    requires r.Valid() && r.Aligned() && table.Length == TABLE_SIZE
    modifies r, table
    ensures r.Valid() && r.Aligned() && r.Pos() >= old(r.Pos()) && r.Limit() == old(r.Limit())
    ensures forall s: nat :: s < |clens| ==> clens[s] <= 7
    ensures ok ==> 257 <= nlit <= 286 && 1 <= ndist <= 30
    ensures old(HeadAt(r.Stream(), r.Pos(), h)) ==>
      if ok then nlit == h.nlit && ndist == h.ndist && r.Pos() == old(r.Pos()) + 14 + 3 * h.nclen
                 && clens == CodeLengthCode(r.Stream(), old(r.Pos()) + 14, h.nclen) && Represents(table[..], clens)
      else r.Starved() && r.Pos() < old(r.Pos()) + 14 + 3 * h.nclen
  {
    clens := [];
    var nclen, lens;
    ok, nlit, ndist, nclen := ReadCounts(r);
    if !ok {
      return;
    }
    if nlit > 286 || ndist > 30 {
      return false, nlit, ndist, clens;
    }
    ok, lens := ReadCodeLengthCode(r, nclen);
    clens := lens;
    if !ok {
      return;
    }
    hide RoomFor, Represents;
    NineBitsFit(lens);
    ok := InflateTable(lens, table);
  }

  /** Reads the code lengths and returns those of the two codes. */
  method ReadCodes(r: Reservoir, table: array<nat>, ghost h: Header) returns (ok: bool, lit: seq<nat>, dist: seq<nat>)
    requires r.Valid() && r.Aligned() && table.Length == TABLE_SIZE
    modifies r, table
    ensures r.Valid() && r.Aligned() && r.Pos() >= old(r.Pos()) && r.Limit() == old(r.Limit())
    ensures ok ==> 257 <= |lit| <= 286 && 1 <= |dist| <= 30
    ensures old(HeaderAt(r.Stream(), r.Pos(), h)) ==>
      if ok then lit == LitLens(h) && dist == DistLens(h) && r.Pos() == HeaderEnd(r.Stream(), old(r.Pos()), h)
      else r.Starved() && r.Pos() < HeaderEnd(r.Stream(), old(r.Pos()), h)
  {
    hide Represents, Fits, RoomFor, ItemsAt, ItemsEnd, CodeLengthCode;
    lit, dist := [], [];
    ghost var m, p := r.Stream(), r.Pos();
    ghost var carried := HeaderAt(m, p, h);
    var nlit, ndist, lens;
    ghost var clens;
    ok, nlit, ndist, clens := ReadCodeLengthTable(r, table, h);
    if !ok {
      if carried {
        ItemsEndGrows(m, p + 14 + 3 * h.nclen, CodeLengthCode(m, p + 14, h.nclen), h.items);
      }
      return;
    }
    ok, lens := ReadLengths(r, table, nlit + ndist, clens, h.items);
    if ok {
      lit, dist := lens[..nlit], lens[nlit..];
    }
  }

  /** Reads the header and builds both tables. */
  method ReadHeader(r: Reservoir, tlit: array<nat>, tdist: array<nat>, ghost h: Header) returns (ok: bool)
    requires r.Valid() && r.Aligned() && tlit.Length == tdist.Length == TABLE_SIZE && tlit != tdist
    modifies r, tlit, tdist
    ensures r.Valid() && r.Aligned() && r.Pos() >= old(r.Pos()) && r.Limit() == old(r.Limit())
    ensures old(HeaderAt(r.Stream(), r.Pos(), h)) ==>
      var end := HeaderEnd(r.Stream(), old(r.Pos()), h);
      if ok then Decodes(tlit[..], tdist[..], LitLens(h), DistLens(h)) && r.Pos() == end && TablesFit(h)
      else (r.Starved() && r.Pos() < end) || !TablesFit(h)
  {
    var lit, dist;
    ok, lit, dist := ReadCodes(r, tlit, h);
    if !ok || lit[END_OF_BLOCK] == 0 {
      return false;
    }
    ok := InflateTable(lit, tlit);
    if !ok {
      return;
    }
    ok := InflateTable(dist, tdist);
  }
}
