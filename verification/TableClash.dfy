/** Why the builder rejects every code that is not tame: two symbols with the same code collide,
    whatever the order in which they are installed. */
module TableClash {
  import opened CanonicalCode
  import opened HiddenSymbol
  import opened HuffmanTable
  import opened TableLayout

  /** No further symbol whose whole code is the window c can be installed. */
  ghost predicate Guarded(t: seq<nat>, c: nat)
    requires |t| == TABLE_SIZE && c < PRIMARY
  {
    t[c] != 0 && (IsSecondary(t[c]) ==> t[PRIMARY + Value(t[c])] != 0)
  }

  /** Among the installed symbols at most one aims at the window, and then it is guarded. */
  ghost predicate Once(t: seq<nat>, lens: seq<nat>, done: set<nat>) {
    && |t| == TABLE_SIZE
    && (forall u: nat, v: nat :: u in done && v in done && Aims(lens, u) && Aims(lens, v) ==> u == v)
    && (forall u: nat :: u in done && Aims(lens, u) ==> Guarded(t, Target(lens)))
  }

  /** t' has the entries of t, and perhaps more. */
  ghost predicate OnlyAdds(t: seq<nat>, t': seq<nat>) {
    |t| == |t'| == TABLE_SIZE && forall i: nat :: i < TABLE_SIZE && t[i] != 0 ==> t'[i] == t[i]
  }

  lemma OnceNone(t: seq<nat>, lens: seq<nat>)
    requires |t| == TABLE_SIZE
    ensures Once(t, lens, {})
  {
  }

  lemma OnceKept(t: seq<nat>, t': seq<nat>, lens: seq<nat>, done: set<nat>)
    requires Once(t, lens, done) && OnlyAdds(t, t')
    ensures Once(t', lens, done)
  {
    forall u: nat | u in done && Aims(lens, u) ensures Guarded(t', Target(lens)) {
      assert Guarded(t, Target(lens));
    }
  }

  lemma OnceAdds(t: seq<nat>, t': seq<nat>, lens: seq<nat>, done: set<nat>, v: nat)
    requires Once(t, lens, done) && OnlyAdds(t, t')
    requires Aims(lens, v) ==> !Guarded(t, Target(lens)) && Guarded(t', Target(lens))
    ensures Once(t', lens, done + {v})
  {
    hide Aims, Guarded;
    OnceKept(t, t', lens, done);
  }

  /** Storing a short code that is the window. */
  lemma ShortAims(t: seq<nat>, t': seq<nat>, lens: seq<nat>, v: nat)
    requires OnlyAdds(t, t') && IsShort(lens, v) && Aims(lens, v)
    requires t[Target(lens)] == 0 && t'[Target(lens)] == Entry(v, lens[v] - 1)
    ensures !Guarded(t, Target(lens)) && Guarded(t', Target(lens))
  {
    AimedNotZero(lens, v);
    EntryFields(v, lens[v] - 1);
  }

  /** Storing a long code that is the window. */
  lemma LongAims(t: seq<nat>, t': seq<nat>, lens: seq<nat>, v: nat)
    requires OnlyAdds(t, t') && IsLong(lens, v) && Aims(lens, v)
    requires IsSecondary(t[Target(lens)]) && t[PRIMARY + Value(t[Target(lens)])] == 0
    requires t'[PRIMARY + Value(t[Target(lens)])] == Entry(v, lens[v] - 8)
    ensures !Guarded(t, Target(lens)) && Guarded(t', Target(lens))
  {
    assert t[Target(lens)] != 0;
  }

  /** Once every symbol that is not hidden is installed, the lengths are tame. */
  lemma OnceIsTame(t: seq<nat>, lens: seq<nat>, done: set<nat>)
    requires Once(t, lens, done)
    requires forall v: nat :: v < |lens| && lens[v] > 0 && !Hidden(lens, v) ==> v in done
    requires (forall v: nat :: v < |lens| ==> lens[v] <= MAX_BITS) && Count(lens, 1) <= 2
    ensures Tame(lens)
  {
    if !Tame(lens) {
      var u, v := Clash(lens);
    }
  }
}
