/** Which over-subscribed codes the table builder accepts.  The entry of symbol 0 with a code of one
    bit is zero, like an empty entry, so later codes may overwrite it.  The other codes then behave
    like those of the code without symbol 0, with the first bit of every code flipped. */
module HiddenSymbol {
  import opened Bits
  import opened CanonicalCode

  /** Symbol 0 has a code of one bit. */
  predicate ZeroEntry(lens: seq<nat>) {
    lens != [] && lens[0] == 1
  }

  function WithoutZero(lens: seq<nat>): seq<nat>
    requires lens != []
  {
    lens[0 := 0]
  }

  /** The lengths that the builder accepts, as far as the codes are concerned: they meet the Kraft
      inequality, or do so without a symbol 0 of one bit. */
  ghost predicate Tame(lens: seq<nat>) {
    Fits(lens) || (ZeroEntry(lens) && Fits(WithoutZero(lens)) && Count(lens, 1) <= 2)
  }

  /** A symbol whose entries later codes overwrite. */
  ghost predicate Hidden(lens: seq<nat>, u: nat) {
    u == 0 && ZeroEntry(lens) && !Fits(lens)
  }

  // ----- flipping the first bit of a window -----

  function Flip(w: nat): nat {
    if w % 2 == 0 then w + 1 else w - 1
  }

  lemma LowFlip(w: nat, j: nat)
    requires j > 0
    ensures Low(Flip(w), j) == Flip(Low(w, j))
  {
    assert Flip(w) / 2 == w / 2;
  }

  /** Adding half of the code space flips the bit that is read first. */
  lemma {:induction false} RevAddHalf(x: nat, j: nat)
    requires j > 0
    ensures Rev(x + Pow2(j - 1), j) == Flip(Rev(x, j))
  {
    if j > 1 {
      assert Pow2(j - 1) == 2 * Pow2(j - 2);
      assert (x + Pow2(j - 1)) / 2 == x / 2 + Pow2(j - 2) && (x + Pow2(j - 1)) % 2 == x % 2;
      RevAddHalf(x / 2, j - 1);
    } else {
      assert Pow2(0) == 1;
      assert Rev(x, 1) == x % 2 && Rev(x + 1, 1) == (x + 1) % 2;
    }
  }

  // ----- the codes with and without symbol 0 -----

  lemma {:induction false} CountWithout(lens: seq<nat>, j: nat, n: nat)
    requires ZeroEntry(lens) && 0 < n <= |lens| && j > 0
    ensures CountBelow(lens, j, n) == CountBelow(WithoutZero(lens), j, n) + (if j == 1 then 1 else 0)
    decreases n
  {
    if n > 1 {
      CountWithout(lens, j, n - 1);
    } else {
      assert CountBelow(lens, j, 0) == CountBelow(WithoutZero(lens), j, 0) == 0;
    }
  }

  lemma {:induction false} FirstCodeWithout(lens: seq<nat>, j: nat)
    requires ZeroEntry(lens) && j > 0
    ensures FirstCode(lens, j) == FirstCode(WithoutZero(lens), j) + (if j == 1 then 0 else Pow2(j - 1))
    decreases j
  {
    if j == 1 {
      assert FirstCode(lens, 0) == FirstCode(WithoutZero(lens), 0) == 0;
    } else {
      FirstCodeWithout(lens, j - 1);
      CountWithout(lens, j - 1, |lens|);
      assert Pow2(0) == 1;
    }
  }

  /** The codes of the other symbols are those of the code without symbol 0, half the space further. */
  lemma CodeWithout(lens: seq<nat>, v: nat)
    requires ZeroEntry(lens) && 0 < v < |lens| && lens[v] > 0
    ensures RevCode(lens, v) == Flip(RevCode(WithoutZero(lens), v))
  {
    FirstCodeWithout(lens, lens[v]);
    CountWithout(lens, lens[v], v);
    assert Pow2(0) == 1;
    assert Code(lens, v) == Code(WithoutZero(lens), v) + Pow2(lens[v] - 1);
    RevAddHalf(Code(WithoutZero(lens), v), lens[v]);
  }

  lemma MatchesWithout(lens: seq<nat>, v: nat, w: nat)
    requires ZeroEntry(lens) && 0 < v && Matches(lens, v, w)
    ensures Matches(WithoutZero(lens), v, Flip(w))
  {
    CodeWithout(lens, v);
    LowFlip(w, lens[v]);
  }

  /** No window starts with the codes of two symbols that are not hidden. */
  lemma Distinguished(lens: seq<nat>, u: nat, v: nat, w: nat)
    requires Tame(lens) && !Hidden(lens, u) && !Hidden(lens, v)
    requires Matches(lens, u, w) && Matches(lens, v, w)
    ensures u == v
  {
    if Fits(lens) {
      PrefixFree(lens, u, v, w);
    } else {
      MatchesWithout(lens, u, w);
      MatchesWithout(lens, v, w);
      PrefixFree(WithoutZero(lens), u, v, Flip(w));
    }
  }

  /** No length has more codes than its number of bits allows. */
  lemma CountBound(lens: seq<nat>, j: nat)
    requires Tame(lens) && 0 < j <= MAX_BITS
    ensures Count(lens, j) <= Pow2(j)
  {
    if Fits(lens) {
      CodesEnd(lens, j);
      UsedBound(lens, j);
    } else if j > 1 {
      CountWithout(lens, j, |lens|);
      CodesEnd(WithoutZero(lens), j);
      UsedBound(WithoutZero(lens), j);
    } else {
      assert Pow2(1) == 2;
    }
  }

  // ----- codes that clash -----

  /** The window with which a clash shows: all zeros, or just the first bit set. */
  function Target(lens: seq<nat>): nat {
    if ZeroEntry(lens) then 1 else 0
  }

  /** A symbol with a code that is this window. */
  ghost predicate Aims(lens: seq<nat>, u: nat) {
    u < |lens| && lens[u] > 0 && RevCode(lens, u) == Target(lens)
  }

  /** The entry of a symbol that aims at the window is not zero. */
  lemma AimedNotZero(lens: seq<nat>, u: nat)
    requires Aims(lens, u)
    ensures !(u == 0 && lens[u] == 1)
  {
    if u == 0 && lens[u] == 1 {
      assert FirstCode(lens, 0) == 0 && CountBelow(lens, 1, 0) == 0;
      assert Code(lens, 0) == 0;
      RevPow2(1);
    }
  }

  /** Lengths that are not tame have two symbols that are not hidden and have the same code. */
  lemma Clash(lens: seq<nat>) returns (u: nat, v: nat)
    requires (forall s: nat :: s < |lens| ==> lens[s] <= MAX_BITS) && !Tame(lens) && Count(lens, 1) <= 2
    ensures u != v && Aims(lens, u) && Aims(lens, v) && !Hidden(lens, u) && !Hidden(lens, v)
  {
    if ZeroEntry(lens) {
      u, v := Oversubscribed(WithoutZero(lens));
      LowSmall(0, lens[u]);
      LowSmall(0, lens[v]);
      CodeWithout(lens, u);
      CodeWithout(lens, v);
    } else {
      u, v := Oversubscribed(lens);
      LowSmall(0, lens[u]);
      LowSmall(0, lens[v]);
    }
  }
}
