/** How much of the secondary area a code needs: for every value of the first eight bits, one
    table sized by the longest code that starts with it. */
module TableSpace {
  import opened Bits
  import opened CanonicalCode
  import opened HuffmanTable
  import opened TableLayout

  /** Size of the secondary table for first byte p, over the symbols below n; 0 if none. */
  function NeedAt(lens: seq<nat>, p: nat, n: nat): nat
    requires n <= |lens|
  {
    if n == 0 then 0
    else
      var rest := NeedAt(lens, p, n - 1);
      if IsLong(lens, n - 1) && PrimaryOf(lens, n - 1) == p && Pow2(lens[n - 1] - 8) > rest
      then Pow2(lens[n - 1] - 8) else rest
  }

  function Need(lens: seq<nat>, p: nat): nat {
    NeedAt(lens, p, |lens|)
  }

  /** Total size of the secondary tables for the first bytes below n. */
  function SpaceBelow(lens: seq<nat>, n: nat): nat {
    if n == 0 then 0 else SpaceBelow(lens, n - 1) + Need(lens, n - 1)
  }

  function Space(lens: seq<nat>): nat {
    SpaceBelow(lens, PRIMARY)
  }

  /** Total size of the secondary tables already started in t. */
  function Taken(t: seq<nat>, lens: seq<nat>, n: nat): nat
    requires n <= |t|
  {
    if n == 0 then 0 else Taken(t, lens, n - 1) + if IsSecondary(t[n - 1]) then Need(lens, n - 1) else 0
  }

  /** Every started table has its final size, and they fill the area up to next. */
  ghost predicate Accounted(t: seq<nat>, lens: seq<nat>, next: nat)
    requires |t| == TABLE_SIZE
  {
    && next == Taken(t, lens, PRIMARY)
    && forall p: nat :: p < PRIMARY && IsSecondary(t[p]) ==> Pow2(SizeBits(t[p])) == Need(lens, p)
  }

  lemma {:induction false} TakenStart(t: seq<nat>, lens: seq<nat>, p: nat, e: nat, n: nat)
    requires p < |t| && n <= |t| && !IsSecondary(t[p]) && IsSecondary(e)
    ensures Taken(t[p := e], lens, n) == Taken(t, lens, n) + if p < n then Need(lens, p) else 0
    decreases n
  {
    if n > 0 {
      TakenStart(t, lens, p, e, n - 1);
    }
  }

  lemma {:induction false} TakenSame(t: seq<nat>, t': seq<nat>, lens: seq<nat>, n: nat)
    requires n <= |t| && n <= |t'| && forall p: nat :: p < n ==> IsSecondary(t'[p]) == IsSecondary(t[p])
    ensures Taken(t', lens, n) == Taken(t, lens, n)
    decreases n
  {
    if n > 0 {
      TakenSame(t, t', lens, n - 1);
    }
  }

  lemma {:induction false} TakenNone(t: seq<nat>, lens: seq<nat>, n: nat)
    requires n <= |t| && forall p: nat :: p < n ==> !IsSecondary(t[p])
    ensures Taken(t, lens, n) == 0
    decreases n
  {
    if n > 0 {
      TakenNone(t, lens, n - 1);
    }
  }

  /** A table that is not started leaves its share of the space untaken. */
  lemma {:induction false} TakenBound(t: seq<nat>, lens: seq<nat>, p: nat, n: nat)
    requires p < |t| && n <= |t| && !IsSecondary(t[p])
    ensures Taken(t, lens, n) + (if p < n then Need(lens, p) else 0) <= SpaceBelow(lens, n)
    decreases n
  {
    if n > 0 {
      TakenBound(t, lens, p, n - 1);
    }
  }

  lemma {:induction false} NeedAtLeast(lens: seq<nat>, v: nat, n: nat)
    requires v < n <= |lens| && IsLong(lens, v)
    ensures NeedAt(lens, PrimaryOf(lens, v), n) >= Pow2(lens[v] - 8)
    decreases n
  {
    if v < n - 1 {
      NeedAtLeast(lens, v, n - 1);
    }
  }

  lemma {:induction false} NeedAtMost(lens: seq<nat>, p: nat, j: nat, n: nat)
    requires n <= |lens| && 8 < j
    requires forall u: nat :: IsLong(lens, u) && PrimaryOf(lens, u) == p ==> lens[u] <= j
    ensures NeedAt(lens, p, n) <= Pow2(j - 8)
    decreases n
  {
    if n > 0 {
      NeedAtMost(lens, p, j, n - 1);
      if IsLong(lens, n - 1) && PrimaryOf(lens, n - 1) == p {
        Pow2Mono(lens[n - 1] - 8, j - 8);
      }
    }
  }

  lemma Pow2Reflects(a: nat, b: nat)
    requires Pow2(a) <= Pow2(b)
    ensures a <= b
  {
    if a > b {
      Pow2Mono(b + 1, a);
    }
  }

  /** A started table is large enough for every code that belongs in it. */
  lemma StartedFits(t: seq<nat>, lens: seq<nat>, next: nat, v: nat)
    requires |t| == TABLE_SIZE && Accounted(t, lens, next) && IsLong(lens, v)
    requires IsSecondary(t[PrimaryOf(lens, v)])
    ensures lens[v] - 8 <= SizeBits(t[PrimaryOf(lens, v)])
  {
    NeedAtLeast(lens, v, |lens|);
    Pow2Reflects(lens[v] - 8, SizeBits(t[PrimaryOf(lens, v)]));
  }

  /** Codes of at most nine bits never exhaust the secondary area. */
  lemma {:induction false} NineBitsBelow(lens: seq<nat>, n: nat)
    requires forall v: nat :: v < |lens| ==> lens[v] <= 9
    ensures SpaceBelow(lens, n) <= 2 * n
  {
    if n > 0 {
      NineBitsBelow(lens, n - 1);
      NeedAtMost(lens, n - 1, 9, |lens|);
      assert Pow2(1) == 2;
    }
  }

  lemma NineBitsFit(lens: seq<nat>)
    requires forall v: nat :: v < |lens| ==> lens[v] <= 9
    ensures RoomFor(lens)
  {
    NineBitsBelow(lens, PRIMARY);
    SmallSpaceFits(lens);
  }

  // ----- exactly when the area is large enough -----

  /** The smallest table that is needed for a first byte below n; 0 if none is. */
  function LeastBelow(lens: seq<nat>, n: nat): nat {
    if n == 0 then 0
    else
      var rest, need := LeastBelow(lens, n - 1), Need(lens, n - 1);
      if need == 0 || (0 < rest < need) then rest else need
  }

  /** All tables but the smallest end below VALUE_LIMIT.  (Tables are started largest first, and the
      offset of each must fit its entry.) */
  ghost predicate RoomFor(lens: seq<nat>) {
    Space(lens) < VALUE_LIMIT + LeastBelow(lens, PRIMARY)
  }

  lemma {:induction false} LeastIsLeast(lens: seq<nat>, p: nat, n: nat)
    requires p < n && Need(lens, p) > 0
    ensures 0 < LeastBelow(lens, n) <= Need(lens, p)
    decreases n
  {
    if p < n - 1 {
      LeastIsLeast(lens, p, n - 1);
    }
  }

  lemma {:induction false} LeastIsNeeded(lens: seq<nat>, n: nat) returns (p: nat)
    requires LeastBelow(lens, n) > 0
    ensures p < n && Need(lens, p) == LeastBelow(lens, n)
    decreases n
  {
    if Need(lens, n - 1) == LeastBelow(lens, n) {
      p := n - 1;
    } else {
      p := LeastIsNeeded(lens, n - 1);
    }
  }

  lemma {:induction false} NeededBy(lens: seq<nat>, p: nat, n: nat) returns (v: nat)
    requires n <= |lens| && NeedAt(lens, p, n) > 0
    ensures v < n && IsLong(lens, v) && PrimaryOf(lens, v) == p
    decreases n
  {
    if NeedAt(lens, p, n - 1) > 0 {
      v := NeededBy(lens, p, n - 1);
    } else {
      v := n - 1;
    }
  }

  /** When every table that is needed is started, the whole space is taken. */
  lemma {:induction false} TakenAll(t: seq<nat>, lens: seq<nat>, n: nat)
    requires n <= |t| && forall p: nat :: p < n && Need(lens, p) > 0 ==> IsSecondary(t[p])
    ensures Taken(t, lens, n) == SpaceBelow(lens, n)
    decreases n
  {
    if n > 0 {
      TakenAll(t, lens, n - 1);
    }
  }

  /** The started tables have at least 2^bits entries, and the one started last, a smallest one,
      starts below VALUE_LIMIT. */
  ghost predicate Packed(t: seq<nat>, ns: nat, bits: nat)
    requires |t| == TABLE_SIZE
  {
    && (forall p: nat :: p < PRIMARY && IsSecondary(t[p]) ==> SizeBits(t[p]) >= bits)
    && (ns == 0 || exists q: nat :: q < PRIMARY && IsSecondary(t[q]) && LastStarted(t, ns, q))
  }

  ghost predicate LastStarted(t: seq<nat>, ns: nat, q: nat)
    requires |t| == TABLE_SIZE && q < PRIMARY
  {
    && ns < VALUE_LIMIT + Pow2(SizeBits(t[q]))
    && forall p: nat :: p < PRIMARY && IsSecondary(t[p]) ==> SizeBits(t[q]) <= SizeBits(t[p])
  }

  lemma PackedStart(t: seq<nat>, ns: nat, bits: nat, p: nat, e: nat)
    requires |t| == TABLE_SIZE && Packed(t, ns, bits) && p < PRIMARY && !IsSecondary(t[p])
    requires IsSecondary(e) && SizeBits(e) == bits && ns < VALUE_LIMIT
    ensures Packed(t[p := e], ns + Pow2(bits), bits)
  {
    var t' := t[p := e];
    assert LastStarted(t', ns + Pow2(bits), p);
  }

  lemma PackedSame(t: seq<nat>, t': seq<nat>, ns: nat, bits: nat)
    requires |t| == |t'| == TABLE_SIZE && Packed(t, ns, bits)
    requires forall p: nat :: p < PRIMARY ==> t'[p] == t[p]
    ensures Packed(t', ns, bits)
  {
    if ns != 0 {
      var q: nat :| q < PRIMARY && IsSecondary(t[q]) && LastStarted(t, ns, q);
      assert LastStarted(t', ns, q);
    }
  }

  /** The tables have all been started below VALUE_LIMIT, so there was room. */
  lemma PackedHadRoom(t: seq<nat>, lens: seq<nat>, ns: nat)
    requires |t| == TABLE_SIZE && Accounted(t, lens, ns) && Packed(t, ns, 0)
    requires forall p: nat :: p < PRIMARY && Need(lens, p) > 0 ==> IsSecondary(t[p])
    ensures RoomFor(lens)
  {
    TakenAll(t, lens, PRIMARY);
    if ns != 0 {
      var q: nat :| q < PRIMARY && IsSecondary(t[q]) && LastStarted(t, ns, q);
      LeastIsLeast(lens, q, PRIMARY);
      var p := LeastIsNeeded(lens, PRIMARY);
      Pow2Mono(SizeBits(t[q]), SizeBits(t[p]));
    }
  }

  /** A table that could not be started did not have room. */
  lemma NoRoomToStart(lens: seq<nat>, ns: nat, p: nat)
    requires p < PRIMARY && Need(lens, p) > 0 && ns + Need(lens, p) <= Space(lens) && ns >= VALUE_LIMIT
    ensures !RoomFor(lens)
  {
    LeastIsLeast(lens, p, PRIMARY);
  }

  lemma SmallSpaceFits(lens: seq<nat>)
    requires Space(lens) <= VALUE_LIMIT
    ensures RoomFor(lens)
  {
    if Space(lens) == VALUE_LIMIT {
      var p := SomeNeed(lens, PRIMARY);
      LeastIsLeast(lens, p, PRIMARY);
    }
  }

  lemma {:induction false} SomeNeed(lens: seq<nat>, n: nat) returns (p: nat)
    requires SpaceBelow(lens, n) > 0
    ensures p < n && Need(lens, p) > 0
    decreases n
  {
    if Need(lens, n - 1) > 0 {
      p := n - 1;
    } else {
      p := SomeNeed(lens, n - 1);
    }
  }
}
