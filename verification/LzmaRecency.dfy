/** What the four distances of the LZMA decoder are: those used most recently, latest first.  Uses are
    told apart by which match a distance came with, not by its value. */
module LzmaRecency {
  import opened Bits
  import opened MatchCopy
  import opened LzmaReader
  import opened LzmaPackets

  // ----- the most recent of a sequence of uses -----

  function Without(s: seq<nat>, x: nat): seq<nat> {
    if s == [] then [] else if s[0] == x then Without(s[1..], x) else [s[0]] + Without(s[1..], x)
  }

  /** What has been used, each once, by its latest use. */
  function Latest(uses: seq<nat>): seq<nat> {
    if uses == [] then []
    else
      var n := |uses| - 1;
      [uses[n]] + Without(Latest(uses[..n]), uses[n])
  }

  lemma {:induction false} WithoutHas(s: seq<nat>, x: nat, y: nat)
    ensures y in Without(s, x) <==> y in s && y != x
    decreases |s|
  {
    if s != [] {
      assert s == [s[0]] + s[1..];
      WithoutHas(s[1..], x, y);
    }
  }

  lemma {:induction false} LatestHas(uses: seq<nat>, y: nat)
    ensures y in Latest(uses) <==> y in uses
    decreases |uses|
  {
    if uses != [] {
      var n := |uses| - 1;
      assert uses == uses[..n] + [uses[n]];
      LatestHas(uses[..n], y);
      WithoutHas(Latest(uses[..n]), uses[n], y);
    }
  }

  ghost predicate Distinct(s: seq<nat>) {
    forall i: nat, j: nat :: i < j < |s| ==> s[i] != s[j]
  }

  lemma {:induction false} WithoutDistinct(s: seq<nat>, x: nat)
    requires Distinct(s)
    ensures Distinct(Without(s, x)) && (x !in s ==> Without(s, x) == s)
    decreases |s|
  {
    if s != [] {
      WithoutDistinct(s[1..], x);
      WithoutHas(s[1..], x, s[0]);
      assert s == [s[0]] + s[1..];
      assert s[0] !in s[1..];
    }
  }

  /** Taking out the one at place i leaves the others in their order. */
  lemma {:induction false} WithoutAt(s: seq<nat>, i: nat)
    requires Distinct(s) && i < |s|
    ensures Without(s, s[i]) == s[..i] + s[i + 1..]
    decreases |s|
  {
    WithoutDistinct(s[1..], s[0]);
    if i == 0 {
      assert s[0] !in s[1..];
    } else {
      WithoutAt(s[1..], i - 1);
      assert s[..i] == [s[0]] + s[1..][..i - 1] && s[i + 1..] == s[1..][i..];
    }
  }

  lemma {:induction false} LatestDistinct(uses: seq<nat>)
    ensures Distinct(Latest(uses))
  {
    if uses != [] {
      LatestDistinct(uses[..|uses| - 1]);
      WithoutHas(Latest(uses[..|uses| - 1]), uses[|uses| - 1], uses[|uses| - 1]);
      WithoutDistinct(Latest(uses[..|uses| - 1]), uses[|uses| - 1]);
    }
  }

  /** When x was last used; -1 if never. */
  function LastUse(uses: seq<nat>, x: nat): int {
    if uses == [] then -1
    else if uses[|uses| - 1] == x then |uses| - 1
    else LastUse(uses[..|uses| - 1], x)
  }

  lemma {:induction false} LastUseBound(uses: seq<nat>, x: nat)
    ensures -1 <= LastUse(uses, x) < |uses| && (LastUse(uses, x) >= 0 <==> x in uses)
  {
    if uses != [] {
      var n := |uses| - 1;
      assert uses == uses[..n] + [uses[n]];
      LastUseBound(uses[..n], x);
    }
  }

  /** Before and after: the order in which s has x and y. */
  lemma {:induction false} WithoutOrder(s: seq<nat>, x: nat, i: nat, j: nat) returns (i': nat, j': nat)
    requires i < j < |Without(s, x)|
    ensures i' < j' < |s| && s[i'] == Without(s, x)[i] && s[j'] == Without(s, x)[j]
    decreases |s|
  {
    if s[0] == x {
      i', j' := WithoutOrder(s[1..], x, i, j);
      i', j' := i' + 1, j' + 1;
    } else if i > 0 {
      i', j' := WithoutOrder(s[1..], x, i - 1, j - 1);
      i', j' := i' + 1, j' + 1;
    } else {
      var y := Without(s[1..], x)[j - 1];
      WithoutHas(s[1..], x, y);
      var k: nat :| k < |s[1..]| && s[1..][k] == y;
      i', j' := 0, k + 1;
    }
  }

  /** The use that came last, and the uses before it. */
  lemma LastOfUses(uses: seq<nat>, y: nat)
    requires uses != []
    ensures var n := |uses| - 1;
      && Latest(uses) == [uses[n]] + Without(Latest(uses[..n]), uses[n])
      && LastUse(uses, y) == if uses[n] == y then n else LastUse(uses[..n], y)
  {
  }

  /** Latest lists them by their last use, the latest first. */
  lemma {:induction false} LatestOrdered(uses: seq<nat>, i: nat, j: nat)
    requires i < j < |Latest(uses)|
    ensures LastUse(uses, Latest(uses)[i]) > LastUse(uses, Latest(uses)[j]) >= 0
    decreases |uses|
  {
    if uses == [] {
      assert false;
    } else {
      hide LastUse, Latest, Without;
      var n := |uses| - 1;
      var l, rest := uses[n], Latest(uses[..n]);
      var x, y := Latest(uses)[i], Latest(uses)[j];
      LastOfUses(uses, x);
      LastOfUses(uses, y);
      assert y == Without(rest, l)[j - 1];
      WithoutHas(rest, l, y);
      LatestHas(uses[..n], y);
      LastUseBound(uses[..n], y);
      if i > 0 {
        var i', j' := WithoutOrder(rest, l, i - 1, j - 1);
        LatestOrdered(uses[..n], i', j');
        assert x == Without(rest, l)[i - 1];
        WithoutHas(rest, l, x);
      }
    }
  }

  // ----- the distances of a packet sequence -----

  /** The distance (less one) of every match so far, and which of them were used, in time order. */
  datatype Trace = Trace(values: seq<nat>, uses: seq<nat>)

  /** The four distances at the start, as if used one after the other. */
  function StartTrace(dist: seq<nat>): Trace
    requires |dist| == 4
  {
    Trace([dist[3], dist[2], dist[1], dist[0]], [0, 1, 2, 3])
  }

  /** A new match brings a new distance and uses it; a repeat uses one of the four latest again. */
  function Use(tr: Trace, p: Packet): Trace {
    match p
    case Lit(_) => tr
    case Match(slot, low, _) => Trace(tr.values + [SlotDistance(slot, low)], tr.uses + [|tr.values|])
    case ShortRep => UseAgain(tr, 0)
    case Rep(index, _) => UseAgain(tr, index)
  }

  function UseAgain(tr: Trace, index: nat): Trace {
    if index < |Latest(tr.uses)| then tr.(uses := tr.uses + [Latest(tr.uses)[index]]) else tr
  }

  function UseAll(tr: Trace, ps: seq<Packet>): Trace
    decreases |ps|
  {
    if ps == [] then tr else UseAll(Use(tr, ps[0]), ps[1..])
  }

  /** The four distances are the latest four. */
  ghost predicate Recent(dist: seq<nat>, tr: Trace) {
    && |dist| == 4 && 4 <= |Latest(tr.uses)|
    && (forall x: nat :: x in tr.uses ==> x < |tr.values|)
    && forall k: nat :: k < 4 ==> Latest(tr.uses)[k] < |tr.values| && dist[k] == tr.values[Latest(tr.uses)[k]]
  }

  lemma StartRecent(dist: seq<nat>)
    requires |dist| == 4
    ensures Recent(dist, StartTrace(dist))
  {
    FourUses();
    hide Latest;
    assert StartTrace(dist).uses == [0, 1, 2, 3] && Latest([0, 1, 2, 3]) == [3, 2, 1, 0];
  }

  lemma FourUses()
    ensures Latest([0, 1, 2, 3]) == [3, 2, 1, 0]
  {
    assert Latest([]) == [];
    hide Latest;
    NewUse([], [], 0, [0], [0]);
    NewUse([0], [0], 1, [0, 1], [1, 0]);
    NewUse([0, 1], [1, 0], 2, [0, 1, 2], [2, 1, 0]);
    NewUse([0, 1, 2], [2, 1, 0], 3, [0, 1, 2, 3], [3, 2, 1, 0]);
  }

  /** A use of what has not been used before. */
  lemma NewUse(uses: seq<nat>, l: seq<nat>, x: nat, uses': seq<nat>, l': seq<nat>)
    requires l == Latest(uses) && x !in l && uses' == uses + [x] && l' == [x] + l
    ensures Latest(uses') == l'
  {
    hide Latest, Distinct;
    LatestDistinct(uses);
    LatestUse(uses, x);
    WithoutAbsent(l, x);
  }

  lemma WithoutAbsent(s: seq<nat>, x: nat)
    requires Distinct(s) && x !in s
    ensures Without(s, x) == s
  {
    WithoutDistinct(s, x);
  }

  /** One more use. */
  lemma LatestUse(uses: seq<nat>, x: nat)
    ensures Latest(uses + [x]) == [x] + Without(Latest(uses), x)
  {
    assert (uses + [x])[..|uses|] == uses;
  }

  /** Where an element comes from when the one at index moves to the front. */
  function Origin(index: nat, k: nat): nat {
    if k == 0 then index else if k <= index then k - 1 else k
  }

  lemma MovedAt(l: seq<nat>, index: nat, k: nat)
    requires index < |l| && k < |l|
    ensures var r := [l[index]] + (l[..index] + l[index + 1..]); |r| == |l| && r[k] == l[Origin(index, k)]
  {
  }

  lemma AgainLatest(tr: Trace, index: nat)
    requires index < |Latest(tr.uses)|
    ensures var l := Latest(tr.uses); Latest(UseAgain(tr, index).uses) == [l[index]] + (l[..index] + l[index + 1..])
  {
    hide Latest, Without;
    var l := Latest(tr.uses);
    LatestUse(tr.uses, l[index]);
    LatestDistinct(tr.uses);
    WithoutAt(l, index);
  }

  lemma AgainRecent(dist: seq<nat>, tr: Trace, index: nat)
    requires Recent(dist, tr) && index < 4
    ensures Recent(ToFront(dist, index), UseAgain(tr, index))
  {
    hide Latest, Without;
    var l, dist', tr' := Latest(tr.uses), ToFront(dist, index), UseAgain(tr, index);
    AgainLatest(tr, index);
    assert dist' == [dist[index]] + (dist[..index] + dist[index + 1..]);
    LatestHas(tr.uses, l[index]);
    MovedAt(l, index, 0);
    forall k: nat | k < 4 ensures Latest(tr'.uses)[k] < |tr'.values| && dist'[k] == tr'.values[Latest(tr'.uses)[k]] {
      MovedAt(l, index, k);
      MovedAt(dist, index, k);
      assert dist[Origin(index, k)] == tr.values[l[Origin(index, k)]];
    }
  }

  lemma NewRecent(dist: seq<nat>, tr: Trace, d: nat)
    requires Recent(dist, tr)
    ensures Recent([d] + dist[..3], Trace(tr.values + [d], tr.uses + [|tr.values|]))
  {
    var l, x := Latest(tr.uses), |tr.values|;
    LatestUse(tr.uses, x);
    LatestDistinct(tr.uses);
    LatestHas(tr.uses, x);
    WithoutAbsent(l, x);
  }

  lemma StepRecent(s: State, p: Packet, tr: Trace)
    requires Applies(s, p) && Recent(s.dist, tr)
    ensures Recent(Apply(s, p).dist, Use(tr, p))
  {
    hide Recent, Latest;
    match p
    case Lit(_) =>
    case Match(slot, low, _) => NewRecent(s.dist, tr, SlotDistance(slot, low));
    case ShortRep =>
      AgainRecent(s.dist, tr, 0);
      assert ToFront(s.dist, 0) == s.dist;
    case Rep(index, _) => AgainRecent(s.dist, tr, index);
  }

  /** After any packets the four distances are the ones used most recently, latest first. */
  lemma {:induction false} DistancesAreRecent(s: State, ps: seq<Packet>, tr: Trace)
    requires AllApply(s, ps) && Recent(s.dist, tr)
    ensures Recent(ApplyAll(s, ps).dist, UseAll(tr, ps))
    decreases |ps|
  {
    hide Recent, Use, Apply, Applies;
    if ps != [] {
      StepRecent(s, ps[0], tr);
      DistancesAreRecent(Apply(s, ps[0]), ps[1..], Use(tr, ps[0]));
    }
  }

  /** From any start: its own four distances count as used before the packets. */
  lemma DistancesFromStart(s: State, ps: seq<Packet>)
    requires s.Valid() && AllApply(s, ps)
    ensures Recent(ApplyAll(s, ps).dist, UseAll(StartTrace(s.dist), ps))
  {
    StartRecent(s.dist);
    DistancesAreRecent(s, ps, StartTrace(s.dist));
  }

  // ----- an example -----

  function Example(): seq<Packet> {
    [Lit(97), Lit(98), Lit(99), Lit(100), Match(3, 0, 2), Match(2, 0, 2), Match(1, 0, 2), Rep(2, 2), Rep(1, 2)]
  }

  lemma RepeatTwo(s: seq<byte>, dist: nat, a: byte, b: byte)
    requires 2 <= dist <= |s| && a == s[|s| - dist] && b == s[|s| - dist + 1]
    ensures Repeat(s, dist, 2) == s + [a, b]
  {
    var t := s + [a];
    assert t[|t| - dist] == b;
    assert Repeat(t, dist, 1) == t + [b] && t + [b] == s + [a, b];
  }

  /** A match of two bytes. */
  lemma MatchStep(s: State, p: Packet, dist: seq<nat>, a: byte, b: byte, s': State)
    requires s.Valid() && Allowed(p) && !p.Lit? && MatchLen(p) == 2 && dist == MatchDist(s.dist, p)
    requires dist[0] < 100 && 2 <= dist[0] + 1 <= |s.out| - s.dict
    requires a == s.out[|s.out| - dist[0] - 1] && b == s.out[|s.out| - dist[0]]
    requires s' == State(MatchState(s.lstate, p), dist, s.out + [a, b], s.dict)
    ensures Applies(s, p) && Apply(s, p) == s'
  {
    RepeatTwo(s.out, dist[0] + 1, a, b);
  }

  lemma SmallSlots()
    ensures SlotOk(1, 0) && SlotOk(2, 0) && SlotOk(3, 0)
    ensures SlotDistance(1, 0) == 1 && SlotDistance(2, 0) == 2 && SlotDistance(3, 0) == 3
  {
    assert Pow2(0) == 1;
  }

  lemma OnePacket(s: State, p: Packet, s': State, rest: seq<Packet>)
    requires Applies(s, p) && Apply(s, p) == s' && AllApply(s', rest)
    ensures AllApply(s, [p] + rest) && ApplyAll(s, [p] + rest) == ApplyAll(s', rest)
  {
    assert ([p] + rest)[1..] == rest;
  }

  /** The output up to byte n, and the distances, while the example runs. */
  function Stage(lstate: nat, dist: seq<nat>, n: nat): State
    requires n <= 14
  {
    State(lstate, dist, [97, 98, 99, 100, 97, 98, 100, 97, 100, 97, 100, 97, 100, 97][..n], 0)
  }

  lemma FirstMatch()
    ensures Applies(Stage(0, [0, 0, 0, 0], 4), Match(3, 0, 2))
    ensures Apply(Stage(0, [0, 0, 0, 0], 4), Match(3, 0, 2)) == Stage(7, [3, 0, 0, 0], 6)
  {
    SmallSlots();
    hide Apply, Applies, SlotDistance, SlotOk;
    MatchStep(Stage(0, [0, 0, 0, 0], 4), Match(3, 0, 2), [3, 0, 0, 0], 97, 98, Stage(7, [3, 0, 0, 0], 6));
  }

  lemma MoreMatches()
    ensures Applies(Stage(7, [3, 0, 0, 0], 6), Match(2, 0, 2))
    ensures Apply(Stage(7, [3, 0, 0, 0], 6), Match(2, 0, 2)) == Stage(10, [2, 3, 0, 0], 8)
    ensures Applies(Stage(10, [2, 3, 0, 0], 8), Match(1, 0, 2))
    ensures Apply(Stage(10, [2, 3, 0, 0], 8), Match(1, 0, 2)) == Stage(10, [1, 2, 3, 0], 10)
  {
    SmallSlots();
    hide Apply, Applies, SlotDistance, SlotOk;
    MatchStep(Stage(7, [3, 0, 0, 0], 6), Match(2, 0, 2), [2, 3, 0, 0], 100, 97, Stage(10, [2, 3, 0, 0], 8));
    MatchStep(Stage(10, [2, 3, 0, 0], 8), Match(1, 0, 2), [1, 2, 3, 0], 100, 97, Stage(10, [1, 2, 3, 0], 10));
  }

  lemma Repeats()
    ensures Applies(Stage(10, [1, 2, 3, 0], 10), Rep(2, 2))
    ensures Apply(Stage(10, [1, 2, 3, 0], 10), Rep(2, 2)) == Stage(11, [3, 1, 2, 0], 12)
    ensures Applies(Stage(11, [3, 1, 2, 0], 12), Rep(1, 2))
    ensures Apply(Stage(11, [3, 1, 2, 0], 12), Rep(1, 2)) == Stage(11, [1, 3, 2, 0], 14)
  {
    hide Apply, Applies;
    MatchStep(Stage(10, [1, 2, 3, 0], 10), Rep(2, 2), [3, 1, 2, 0], 100, 97, Stage(11, [3, 1, 2, 0], 12));
    MatchStep(Stage(11, [3, 1, 2, 0], 12), Rep(1, 2), [1, 3, 2, 0], 100, 97, Stage(11, [1, 3, 2, 0], 14));
  }

  lemma Literals()
    ensures Applies(Stage(0, [0, 0, 0, 0], 0), Lit(97)) && Applies(Stage(0, [0, 0, 0, 0], 1), Lit(98))
    ensures Apply(Stage(0, [0, 0, 0, 0], 0), Lit(97)) == Stage(0, [0, 0, 0, 0], 1)
    ensures Apply(Stage(0, [0, 0, 0, 0], 1), Lit(98)) == Stage(0, [0, 0, 0, 0], 2)
    ensures Applies(Stage(0, [0, 0, 0, 0], 2), Lit(99)) && Applies(Stage(0, [0, 0, 0, 0], 3), Lit(100))
    ensures Apply(Stage(0, [0, 0, 0, 0], 2), Lit(99)) == Stage(0, [0, 0, 0, 0], 3)
    ensures Apply(Stage(0, [0, 0, 0, 0], 3), Lit(100)) == Stage(0, [0, 0, 0, 0], 4)
  {
  }

  /** abcd, then copies from 4, 3 and 2 back, then 4 back again, then 2. */
  lemma ExampleExpands()
    ensures AllApply(Stage(0, [0, 0, 0, 0], 0), Example())
    ensures ApplyAll(Stage(0, [0, 0, 0, 0], 0), Example())
         == State(11, [1, 3, 2, 0], [97, 98, 99, 100, 97, 98, 100, 97, 100, 97, 100, 97, 100, 97], 0)
  {
    Literals();
    FirstMatch();
    MoreMatches();
    Repeats();
    hide Apply, Applies, Stage, AllApply, ApplyAll;
    NothingLeft(Stage(11, [1, 3, 2, 0], 14));
    var ps: seq<Packet> := [];
    OnePacket(Stage(11, [3, 1, 2, 0], 12), Rep(1, 2), Stage(11, [1, 3, 2, 0], 14), ps);
    ps := [Rep(1, 2)] + ps;
    OnePacket(Stage(10, [1, 2, 3, 0], 10), Rep(2, 2), Stage(11, [3, 1, 2, 0], 12), ps);
    ps := [Rep(2, 2)] + ps;
    OnePacket(Stage(10, [2, 3, 0, 0], 8), Match(1, 0, 2), Stage(10, [1, 2, 3, 0], 10), ps);
    ps := [Match(1, 0, 2)] + ps;
    OnePacket(Stage(7, [3, 0, 0, 0], 6), Match(2, 0, 2), Stage(10, [2, 3, 0, 0], 8), ps);
    ps := [Match(2, 0, 2)] + ps;
    OnePacket(Stage(0, [0, 0, 0, 0], 4), Match(3, 0, 2), Stage(7, [3, 0, 0, 0], 6), ps);
    ps := [Match(3, 0, 2)] + ps;
    OnePacket(Stage(0, [0, 0, 0, 0], 3), Lit(100), Stage(0, [0, 0, 0, 0], 4), ps);
    ps := [Lit(100)] + ps;
    OnePacket(Stage(0, [0, 0, 0, 0], 2), Lit(99), Stage(0, [0, 0, 0, 0], 3), ps);
    ps := [Lit(99)] + ps;
    OnePacket(Stage(0, [0, 0, 0, 0], 1), Lit(98), Stage(0, [0, 0, 0, 0], 2), ps);
    ps := [Lit(98)] + ps;
    OnePacket(Stage(0, [0, 0, 0, 0], 0), Lit(97), Stage(0, [0, 0, 0, 0], 1), ps);
    ps := [Lit(97)] + ps;
    assert ps == Example();
    FinalStage();
  }

  lemma NothingLeft(s: State)
    ensures AllApply(s, []) && ApplyAll(s, []) == s
  {
  }

  lemma FinalStage()
    ensures Stage(11, [1, 3, 2, 0], 14)
         == State(11, [1, 3, 2, 0], [97, 98, 99, 100, 97, 98, 100, 97, 100, 97, 100, 97, 100, 97], 0)
  {
  }
}
