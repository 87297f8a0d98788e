/** The lock-free lists of elf.c and dwarf.c as a state machine: any number of threads append a node
    (elf_add_syminfo_data, backtrace_dwarf_add) or walk the list (elf_syminfo, dwarf_fileline), in
    atomic loads and compare-and-swaps. */
module AppendList {

  /** A place that holds a pointer: the head in the state, or the next field of a node. */
  datatype Cell = Head | NextOf(node: nat)

  /** Where a thread is.  `passed` counts the nodes its walk has passed; no step depends on it. */
  datatype Pc =
    | Pending(node: nat)                          // has a node to append
    | Walk(node: nat, pp: Cell, passed: nat)      // appending, about to load *pp
    | Swap(node: nat, pp: Cell, passed: nat)      // has loaded NULL from *pp, about to swap
    | Appended(node: nat)
    | Read(pp: Cell, seen: seq<nat>)              // reading, about to load *pp
    | Done(seen: seq<nat>)

  /** A cell without an entry holds NULL. */
  datatype State = State(links: map<Cell, nat>, threads: seq<Pc>)

  function At(s: State, t: nat, pc: Pc): State
    requires t < |s.threads|
  {
    s.(threads := s.threads[t := pc])
  }

  predicate Swaps(s: State, t: nat)
    requires t < |s.threads|
  {
    s.threads[t].Swap? && s.threads[t].pp !in s.links
  }

  /** The swap finds a pointer where NULL was loaded. */
  predicate SwapFails(s: State, t: nat)
    requires t < |s.threads|
  {
    s.threads[t].Swap? && s.threads[t].pp in s.links
  }

  predicate Step(s: State, s': State, t: nat) {
    && t < |s.threads|
    && match s.threads[t]
       case Pending(n) => s' == At(s, t, Walk(n, Head, 0))
       case Walk(n, pp, k) =>
         s' == At(s, t, if pp in s.links then Walk(n, NextOf(s.links[pp]), k + 1) else Swap(n, pp, k))
       case Swap(n, pp, _) =>
         if pp in s.links then s' == At(s, t, Walk(n, Head, 0))
         else s' == At(s, t, Appended(n)).(links := s.links[pp := n])
       case Read(pp, seen) =>
         if pp in s.links then
           // goes on, or has found what it looked for
           s' == At(s, t, Read(NextOf(s.links[pp]), seen + [s.links[pp]])) || s' == At(s, t, Done(seen + [s.links[pp]]))
         else s' == At(s, t, Done(seen))
       case _ => false
  }

  // ----- the list -----

  function CellAt(l: seq<nat>, k: nat): Cell
    requires k <= |l|
  {
    if k == 0 then Head else NextOf(l[k - 1])
  }

  ghost predicate Distinct(l: seq<nat>) {
    forall i: nat, j: nat :: i < j < |l| ==> l[i] != l[j]
  }

  ghost predicate LinkAt(links: map<Cell, nat>, l: seq<nat>, k: nat)
    requires k < |l|
  {
    CellAt(l, k) in links && links[CellAt(l, k)] == l[k]
  }

  ghost predicate CellOf(l: seq<nat>, c: Cell) {
    c == Head || c.node in l
  }

  /** The nodes from the head are those of l; the last points to nothing, and nodes that are not in
      the list point nowhere. */
  ghost predicate IsList(links: map<Cell, nat>, l: seq<nat>) {
    && Distinct(l)
    && (forall k: nat :: k < |l| ==> LinkAt(links, l, k))
    && CellAt(l, |l|) !in links
    && (forall c :: c in links ==> CellOf(l, c))
  }

  lemma {:induction false} CellsDiffer(l: seq<nat>, i: nat, j: nat)
    requires Distinct(l) && i < j <= |l|
    ensures CellAt(l, i) != CellAt(l, j)
  {
    if i > 0 {
      assert l[i - 1] != l[j - 1];
    }
  }

  /** Only one list can be read off the links. */
  lemma ListUnique(links: map<Cell, nat>, l: seq<nat>, l': seq<nat>)
    requires IsList(links, l) && IsList(links, l')
    ensures l == l'
  {
    var n := if |l| <= |l'| then |l| else |l'|;
    SamePrefix(links, l, l', n);
    SameCell(l, l', n);
    NoLinkIsEnd(links, l, n);
    NoLinkIsEnd(links, l', n);
    assert |l| == n == |l'|;
    assert l == l[..n] && l' == l'[..n];
  }

  lemma SameCell(l: seq<nat>, l': seq<nat>, n: nat)
    requires n <= |l| && n <= |l'| && l[..n] == l'[..n]
    ensures CellAt(l, n) == CellAt(l', n)
  {
    if n > 0 {
      assert l[..n][n - 1] == l'[..n][n - 1];
    }
  }

  lemma {:induction false} SamePrefix(links: map<Cell, nat>, l: seq<nat>, l': seq<nat>, n: nat)
    requires IsList(links, l) && IsList(links, l') && n <= |l| && n <= |l'|
    ensures l[..n] == l'[..n]
    decreases n
  {
    if n > 0 {
      SamePrefix(links, l, l', n - 1);
      SameCell(l, l', n - 1);
      assert LinkAt(links, l, n - 1) && LinkAt(links, l', n - 1);
    }
  }

  /** Storing a node in the cell behind the last one appends it. */
  lemma LinkAppends(links: map<Cell, nat>, l: seq<nat>, n: nat)
    requires IsList(links, l) && n !in l
    ensures IsList(links[CellAt(l, |l|) := n], l + [n])
  {
    var links', l' := links[CellAt(l, |l|) := n], l + [n];
    forall k: nat | k < |l'| ensures LinkAt(links', l', k) {
      if k < |l| {
        assert LinkAt(links, l, k);
        CellsDiffer(l, k, |l|);
        assert CellAt(l', k) == CellAt(l, k);
      } else {
        assert CellAt(l', k) == CellAt(l, |l|);
      }
    }
    assert CellAt(l', |l'|) == NextOf(n);
    CellsDiffer(l', |l|, |l'|);
    forall c | c in links' ensures CellOf(l', c) {
      assert c in links ==> CellOf(l, c);
    }
  }

  // ----- the invariant -----

  ghost predicate PcOk(pc: Pc, l: seq<nat>) {
    match pc
    case Pending(n) => n !in l
    case Walk(n, pp, k) => n !in l && k <= |l| && pp == CellAt(l, k)
    case Swap(n, pp, k) => n !in l && k <= |l| && pp == CellAt(l, k)
    case Appended(n) => n in l
    case Read(pp, seen) => seen <= l && pp == CellAt(l, |seen|)
    case Done(seen) => seen <= l
  }

  predicate Appends(pc: Pc) {
    !pc.Read? && !pc.Done?
  }

  /** Every thread appends a node of its own. */
  ghost predicate OwnNodes(s: State) {
    forall t: nat, u: nat :: t < u < |s.threads| && Appends(s.threads[t]) && Appends(s.threads[u]) ==>
      s.threads[t].node != s.threads[u].node
  }

  ghost predicate HasAppended(s: State, n: nat) {
    exists t: nat :: t < |s.threads| && s.threads[t] == Appended(n)
  }

  ghost predicate Inv(s: State, l: seq<nat>) {
    && IsList(s.links, l) && OwnNodes(s)
    && (forall t: nat :: t < |s.threads| ==> PcOk(s.threads[t], l))
    && (forall i: nat :: i < |l| ==> HasAppended(s, l[i]))
  }

  ghost predicate Init(s: State) {
    && s.links == map[] && OwnNodes(s)
    && forall t: nat :: t < |s.threads| ==> s.threads[t].Pending? || s.threads[t] == Read(Head, [])
  }

  /** The list after a step of thread t. */
  ghost function NextList(s: State, l: seq<nat>, t: nat): seq<nat>
    requires t < |s.threads|
  {
    if Swaps(s, t) then l + [s.threads[t].node] else l
  }

  /** What holds of a thread keeps holding when another node is appended. */
  lemma PcStays(pc: Pc, l: seq<nat>, n: nat)
    requires PcOk(pc, l) && (Appends(pc) ==> pc.node != n)
    ensures PcOk(pc, l + [n])
  {
    match pc
    case Walk(_, _, k) => assert CellAt(l + [n], k) == CellAt(l, k);
    case Swap(_, _, k) => assert CellAt(l + [n], k) == CellAt(l, k);
    case Read(_, seen) => assert CellAt(l + [n], |seen|) == CellAt(l, |seen|);
    case _ =>
  }

  lemma NoLinkIsEnd(links: map<Cell, nat>, l: seq<nat>, k: nat)
    requires IsList(links, l) && k <= |l|
    ensures CellAt(l, k) in links <==> k < |l|
    ensures k < |l| ==> links[CellAt(l, k)] == l[k] && NextOf(l[k]) == CellAt(l, k + 1)
  {
    if k < |l| {
      assert LinkAt(links, l, k);
    }
  }

  /** The thread that moves is where it should be. */
  lemma OwnPc(s: State, s': State, l: seq<nat>, t: nat)
    requires Inv(s, l) && Step(s, s', t)
    ensures PcOk(s'.threads[t], NextList(s, l, t))
  {
    hide IsList;
    assert PcOk(s.threads[t], l);
    match s.threads[t]
    case Walk(_, _, k) => NoLinkIsEnd(s.links, l, k);
    case Swap(_, _, k) => NoLinkIsEnd(s.links, l, k);
    case Read(_, seen) => NoLinkIsEnd(s.links, l, |seen|);
    case _ =>
  }

  lemma StepKeepsList(s: State, s': State, l: seq<nat>, t: nat)
    requires Inv(s, l) && Step(s, s', t)
    ensures IsList(s'.links, NextList(s, l, t))
  {
    hide IsList;
    assert PcOk(s.threads[t], l);
    if Swaps(s, t) {
      NoLinkIsEnd(s.links, l, s.threads[t].passed);
      LinkAppends(s.links, l, s.threads[t].node);
    }
  }

  lemma StepKeepsOwners(s: State, s': State, l: seq<nat>, t: nat)
    requires Inv(s, l) && Step(s, s', t)
    ensures |s'.threads| == |s.threads| && forall u: nat :: u < |s.threads| && u != t ==> s'.threads[u] == s.threads[u]
    ensures Appends(s'.threads[t]) == Appends(s.threads[t])
    ensures Appends(s.threads[t]) ==> s'.threads[t].node == s.threads[t].node
    ensures s.threads[t].Appended? ==> s'.threads[t] == s.threads[t]
    ensures Swaps(s, t) ==> s'.threads[t] == Appended(s.threads[t].node)
  {
    hide IsList;
  }

  lemma StepKeepsInv(s: State, s': State, l: seq<nat>, t: nat)
    requires Inv(s, l) && Step(s, s', t)
    ensures Inv(s', NextList(s, l, t))
  {
    hide IsList, PcOk;
    StepKeepsList(s, s', l, t);
    StepKeepsOwners(s, s', l, t);
    OwnPc(s, s', l, t);
    var l' := NextList(s, l, t);
    forall u: nat | u < |s'.threads| ensures PcOk(s'.threads[u], l') {
      if u != t && Swaps(s, t) {
        PcStays(s.threads[u], l, s.threads[t].node);
      }
    }
    forall i: nat | i < |l'| ensures HasAppended(s', l'[i]) {
      if i < |l| {
        assert HasAppended(s, l[i]);
        var u: nat :| u < |s.threads| && s.threads[u] == Appended(l[i]);
        assert s'.threads[u] == Appended(l[i]);
      } else {
        assert s'.threads[t] == Appended(l'[i]);
      }
    }
  }

  // ----- every run -----

  ghost predicate StepAt(states: seq<State>, who: seq<nat>, k: nat)
    requires |states| == |who| + 1
  {
    k < |who| ==> Step(states[k], states[k + 1], who[k])
  }

  /** Thread who[k] takes state k to state k + 1. */
  ghost predicate Run(states: seq<State>, who: seq<nat>) {
    |states| == |who| + 1 && Init(states[0]) && forall k: nat :: StepAt(states, who, k)
  }

  /** The lists of the states of a run: at first empty, and then longer by one node with every swap
      that succeeds. */
  ghost function ListIn(states: seq<State>, who: seq<nat>, k: nat): seq<nat>
    requires k < |states| == |who| + 1
  {
    if k == 0 then []
    else if who[k - 1] < |states[k - 1].threads| then NextList(states[k - 1], ListIn(states, who, k - 1), who[k - 1])
    else ListIn(states, who, k - 1)
  }

  lemma {:induction false} RunKeepsInv(states: seq<State>, who: seq<nat>, k: nat)
    requires Run(states, who) && k < |states|
    ensures Inv(states[k], ListIn(states, who, k))
  {
    hide Step, NextList;
    if k > 0 {
      RunKeepsInv(states, who, k - 1);
      assert StepAt(states, who, k - 1);
      StepHasThread(states[k - 1], states[k], who[k - 1]);
      StepKeepsInv(states[k - 1], states[k], ListIn(states, who, k - 1), who[k - 1]);
    }
  }

  lemma StepHasThread(s: State, s': State, t: nat)
    requires Step(s, s', t)
    ensures t < |s.threads|
  {
  }

  /** In every run the list only grows at its end, and by one node at a time. */
  lemma {:induction false} ListGrows(states: seq<State>, who: seq<nat>, k: nat, m: nat)
    requires Run(states, who) && k <= m < |states|
    ensures IsList(states[k].links, ListIn(states, who, k))
    ensures ListIn(states, who, k) <= ListIn(states, who, m)
    ensures |ListIn(states, who, m)| <= |ListIn(states, who, k)| + (m - k)
    decreases m
  {
    RunKeepsInv(states, who, k);
    hide Step, Inv, IsList;
    if k < m {
      ListGrows(states, who, k, m - 1);
    }
  }

  /** No node is lost and none is linked twice: at every moment the list has exactly the nodes whose
      append has returned, each once, and it keeps them. */
  lemma NoneLostOrDuplicated(states: seq<State>, who: seq<nat>, k: nat, m: nat, n: nat)
    requires Run(states, who) && k <= m < |states|
    ensures Distinct(ListIn(states, who, k))
    ensures n in ListIn(states, who, k) <==> HasAppended(states[k], n)
    ensures n in ListIn(states, who, k) ==> n in ListIn(states, who, m)
  {
    RunKeepsInv(states, who, k);
    ListGrows(states, who, k, m);
    hide Run, ListIn;
    if HasAppended(states[k], n) {
      var t: nat :| t < |states[k].threads| && states[k].threads[t] == Appended(n);
      assert PcOk(states[k].threads[t], ListIn(states, who, k));
    }
  }

  /** What a reader has seen is the front part of the list of every later state. */
  lemma ReadersSeePrefix(states: seq<State>, who: seq<nat>, k: nat, m: nat, t: nat)
    requires Run(states, who) && k <= m < |states| && t < |states[k].threads| && !Appends(states[k].threads[t])
    ensures states[k].threads[t].seen <= ListIn(states, who, m)
  {
    RunKeepsInv(states, who, k);
    ListGrows(states, who, k, m);
    hide Run, ListIn;
    assert PcOk(states[k].threads[t], ListIn(states, who, k));
  }

  /** A reader that comes to the end has seen the whole list of that moment. */
  lemma EndSeesAll(s: State, s': State, l: seq<nat>, t: nat)
    requires Inv(s, l) && Step(s, s', t) && s.threads[t].Read? && s.threads[t].pp !in s.links
    ensures s'.threads[t] == Done(l)
  {
    assert PcOk(s.threads[t], l);
    NoLinkIsEnd(s.links, l, |s.threads[t].seen|);
  }

  // ----- failing swaps -----

  /** The length of the list when thread t last saw its end, or its length now. */
  ghost function LastLength(s: State, l: seq<nat>, t: nat): nat
    requires t < |s.threads|
  {
    if s.threads[t].Swap? then s.threads[t].passed else |l|
  }

  /** A swap of thread t fails only when the list has grown since t saw its end. */
  lemma FailureMeansGrowth(s: State, s': State, l: seq<nat>, u: nat, t: nat)
    requires Inv(s, l) && Step(s, s', u) && t < |s.threads|
    ensures |s'.threads| == |s.threads|
    ensures LastLength(s', NextList(s, l, u), t) >= LastLength(s, l, t) + (if u == t && SwapFails(s, t) then 1 else 0)
  {
    hide IsList;
    StepKeepsOwners(s, s', l, u);
    assert PcOk(s.threads[t], l);
    assert PcOk(s.threads[u], l);
    if !s.threads[t].Appended? && Appends(s.threads[t]) && !s.threads[t].Pending? {
      NoLinkIsEnd(s.links, l, s.threads[t].passed);
    }
  }

  /** How many swaps of thread t have failed in the first k steps. */
  ghost function Failures(states: seq<State>, who: seq<nat>, t: nat, k: nat): nat
    requires k < |states| == |who| + 1
  {
    if k == 0 then 0
    else Failures(states, who, t, k - 1) + (if who[k - 1] == t < |states[k - 1].threads| && SwapFails(states[k - 1], t) then 1 else 0)
  }

  /** A thread tries again at most once for every node that others have appended meanwhile. */
  lemma {:induction false} RetriesBounded(states: seq<State>, who: seq<nat>, t: nat, k: nat)
    requires Run(states, who) && k < |states| && t < |states[0].threads|
    ensures |states[k].threads| == |states[0].threads|
    ensures Failures(states, who, t, k) <= LastLength(states[k], ListIn(states, who, k), t) <= |ListIn(states, who, k)|
    decreases k
  {
    RunKeepsInv(states, who, k);
    if k > 0 {
      RetriesBounded(states, who, t, k - 1);
      RunKeepsInv(states, who, k - 1);
      assert StepAt(states, who, k - 1);
      hide Step, NextList, SwapFails;
      StepHasThread(states[k - 1], states[k], who[k - 1]);
      FailureMeansGrowth(states[k - 1], states[k], ListIn(states, who, k - 1), who[k - 1], t);
    }
    if states[k].threads[t].Swap? {
      assert PcOk(states[k].threads[t], ListIn(states, who, k));
    }
  }
}
