/** The address table of the compilation units and the search for the unit of a pc. */
module UnitIndex {
  import opened Options
  import opened QSort
  import opened IntervalIndex

  /** Where the line program of a unit stands, and whether reading it has failed. */
  datatype Unit = Unit(lineoff: nat, useless: bool)

  /** The tie of unit_addrs_compare. */
  function CompareOffsets(u1: Unit, u2: Unit): int {
    if u1.lineoff < u2.lineoff then -1 else if u1.lineoff > u2.lineoff then 1 else 0
  }

  lemma OffsetsArePreorder()
    ensures TotalPreorder(CompareOffsets)
  {
  }

  /** Sorts the table that build_address_map has made. */
  method SortUnits(a: array<Entry<Unit>>)
    requires a.Length > 0 && a[a.Length - 1].low == MAX_PC
    requires forall i: nat :: i < a.Length ==> a[i].low <= MAX_PC && a[i].high <= MAX_PC
    modifies a
    ensures Table(a[..]) && Sorted(ByRange(CompareOffsets), a[..a.Length - 1])
    ensures multiset(a[..]) == old(multiset(a[..]))
  {
    OffsetsArePreorder();
    SortTable(a, CompareOffsets);
  }

  /** Of several units with the same range the match has the greatest offset. */
  lemma GreatestOffset(t: seq<Entry<Unit>>, pc: nat, i: nat, j: nat)
    requires Table(t) && Sorted(ByRange(CompareOffsets), t[..|t| - 1]) && Matches(t, pc, i)
    requires j < |t| - 1 && t[j].low == t[i].low && t[j].high == t[i].high
    ensures t[j].value.lineoff <= t[i].value.lineoff
  {
    if j != i {
      FoundIsLast(t, CompareOffsets, pc, i, j);
    }
  }

  /** Entry j is reached from the match i by going back over useless units as long as the unit before
      contains pc as well. */
  ghost predicate Chosen(t: seq<Entry<Unit>>, pc: nat, i: nat, j: nat) {
    && Matches(t, pc, i) && j <= i
    && (forall k: nat :: j <= k <= i ==> Contains(t[k], pc))
    && (forall k: nat :: j < k <= i ==> t[k].value.useless)
    && (!t[j].value.useless || j == 0 || !Contains(t[j - 1], pc))
  }

  /** The search for the unit in dwarf_lookup_pc. */
  method FindUnit(t: seq<Entry<Unit>>, pc: nat) returns (r: Option<nat>)
    requires Table(t) && pc <= MAX_PC
    ensures r.Some? ==> exists i: nat :: Chosen(t, pc, i, r.value)
    ensures r.None? ==> forall i: nat :: !Matches(t, pc, i)
  {
    r := Lookup(t, pc);
    if r.Some? {
      ghost var i: nat := r.value;
      var entry: nat := r.value;
      while entry > 0 && Contains(t[entry - 1], pc) && t[entry].value.useless
        invariant entry <= i && Contains(t[entry], pc)
        invariant forall k: nat :: entry <= k <= i ==> Contains(t[k], pc)
        invariant forall k: nat :: entry < k <= i ==> t[k].value.useless
      {
        entry := entry - 1;
      }
      assert Chosen(t, pc, i, entry);
      r := Some(entry);
    }
  }

  /** The unit found is determined by the table and pc. */
  lemma ChosenUnique(t: seq<Entry<Unit>>, pc: nat, i: nat, j: nat, i': nat, j': nat)
    requires Table(t) && Chosen(t, pc, i, j) && Chosen(t, pc, i', j')
    ensures j == j'
  {
    MatchIsSmallest(t, pc, i, i');
  }

  /** The units whose addresses hold 130, the outermost first; the inner two could not be read. */
  function Nested(): seq<Entry<Unit>> {
    [Entry(0, 1000, Unit(7, false)), Entry(100, 200, Unit(8, true)), Entry(120, 150, Unit(9, true)),
     Entry(MAX_PC, MAX_PC, Unit(0, false))]
  }

  lemma NestedTable()
    ensures Table(Nested()) && Matches(Nested(), 130, 2) && forall i: nat :: !Matches(Nested(), 160, i)
  {
    var t := Nested();
    assert t[0].low == 0 && t[1].low == 100 && t[2].low == 120;
  }

  /** The search goes back over them to the one that could be read.  For 160 it finds nothing: 120 is the
      greatest start, and no unit that starts there holds it. */
  lemma UselessSkipped(i: nat, j: nat)
    ensures Table(Nested())
    ensures Chosen(Nested(), 130, i, j) <==> i == 2 && j == 0
    ensures !Matches(Nested(), 160, i)
  {
    hide Table, Matches;
    NestedTable();
    if Matches(Nested(), 130, i) {
      MatchIsSmallest(Nested(), 130, 2, i);
    }
  }
}
