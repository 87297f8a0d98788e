/** The line table of dwarf.c: rows are collected in order, sorted in place, and searched. */
module LineTable {
  import opened QSort
  import opened Options
  import opened Search

  const WORD: nat := 0x1_0000_0000_0000_0000
  const MAX_PC: nat := WORD - 1

  /** The address of a file name; two names are only compared as addresses. */
  type Pointer = nat

  datatype Line = Line(pc: nat, filename: Pointer, lineno: int, idx: nat)

  const SENTINEL: Line := Line(MAX_PC, 0, 0, 0)

  // ----- collecting rows -----

  /** Rows are numbered in the order in which they were added. */
  ghost predicate Indexed(rows: seq<Line>) {
    forall i: nat :: i < |rows| ==> rows[i].idx == i && rows[i].pc <= MAX_PC
  }

  predicate Same(row: Line, pc: nat, filename: Pointer, lineno: int) {
    pc == row.pc && filename == row.filename && lineno == row.lineno
  }

  /** A struct line_vector. */
  class LineVector {
    var lines: seq<Line>

    constructor ()
      ensures lines == []
    {
      lines := [];
    }

    /** add_line.  The row that is ignored is one whose unrelocated address is the relocated address
        of the row before it. */
    method AddLine(pc: nat, filename: Pointer, lineno: int, baseAddress: nat)
      requires pc <= MAX_PC && Indexed(lines)
      modifies this
      ensures Indexed(lines)
      ensures old(lines) <= lines
      ensures if lines == old(lines) then |lines| > 0 && Same(lines[|lines| - 1], pc, filename, lineno)
              else |lines| == |old(lines)| + 1 && Same(lines[|lines| - 1], (pc + baseAddress) % WORD, filename, lineno)
      ensures |old(lines)| > 0 && Same(old(lines)[|old(lines)| - 1], pc, filename, lineno) ==> lines == old(lines)
    {
      if |lines| > 0 {
        var ln := lines[|lines| - 1];
        if pc == ln.pc && filename == ln.filename && lineno == ln.lineno {
          return;
        }
      }
      lines := lines + [Line((pc + baseAddress) % WORD, filename, lineno, |lines|)];
    }
  }

  predicate Repeats(row: Line, pc: nat, filename: Pointer, lineno: int, baseAddress: nat) {
    Same(row, (pc + baseAddress) % WORD, filename, lineno)
  }

  /** add_line is meant to ignore a row that repeats the row before it.  It ignores exactly those rows
      if, and only if, the module is not relocated. */
  lemma IgnoresRepetitions(baseAddress: nat)
    requires baseAddress < WORD
    ensures (forall row: Line, pc: nat, filename: Pointer, lineno: int :: pc <= MAX_PC ==>
              (Same(row, pc, filename, lineno) <==> Repeats(row, pc, filename, lineno, baseAddress)))
       <==> baseAddress == 0
  {
    if baseAddress != 0 {
      var row := Line(baseAddress, 0, 1, 0);
      assert Repeats(row, 0, 0, 1, baseAddress) && !Same(row, 0, 0, 1);
    }
  }

  // ----- sorting rows -----

  function LineCompare(ln1: Line, ln2: Line): int {
    if ln1.pc < ln2.pc then -1
    else if ln1.pc > ln2.pc then 1
    else if ln1.idx < ln2.idx then -1
    else if ln1.idx > ln2.idx then 1
    else 0
  }

  lemma LineCompareIsPreorder()
    ensures TotalPreorder(LineCompare)
  {
  }

  /** The stable sort by address: each row in turn goes behind those that do not start later. */
  function StableSort(rows: seq<Line>): seq<Line> {
    if rows == [] then [] else InsertBehind(StableSort(rows[..|rows| - 1]), rows[|rows| - 1])
  }

  function InsertBehind(sorted: seq<Line>, row: Line): seq<Line> {
    if sorted == [] || sorted[|sorted| - 1].pc <= row.pc then sorted + [row]
    else InsertBehind(sorted[..|sorted| - 1], row) + [sorted[|sorted| - 1]]
  }

  lemma {:induction false} InsertBehindPermutes(sorted: seq<Line>, row: Line)
    ensures multiset(InsertBehind(sorted, row)) == multiset(sorted) + multiset{row}
    decreases |sorted|
  {
    if sorted != [] && sorted[|sorted| - 1].pc > row.pc {
      InsertBehindPermutes(sorted[..|sorted| - 1], row);
      assert sorted == sorted[..|sorted| - 1] + [sorted[|sorted| - 1]];
    }
  }

  lemma {:induction false} InsertBehindSorted(sorted: seq<Line>, row: Line)
    requires Sorted(LineCompare, sorted) && forall k: nat :: k < |sorted| ==> sorted[k].idx < row.idx
    ensures Sorted(LineCompare, InsertBehind(sorted, row))
    decreases |sorted|
  {
    var n := |sorted|;
    if n > 0 && sorted[n - 1].pc > row.pc {
      var front, x := sorted[..n - 1], sorted[n - 1];
      InsertBehindSorted(front, row);
      BelowLast(sorted);
      InsertBehindPermutes(front, row);
      var r := InsertBehind(front, row);
      hide Sorted, InsertBehind;
      BelowOne(front, row, x);
      BelowPermutation(LineCompare, front + [row], [x], r, [x]);
      SortedOne(LineCompare, x);
      SortedConcat(LineCompare, r, [x]);
    } else if n > 0 {
      BelowAll(sorted, row);
      hide Sorted;
      SortedOne(LineCompare, row);
      SortedConcat(LineCompare, sorted, [row]);
    }
  }

  lemma BelowLast(sorted: seq<Line>)
    requires Sorted(LineCompare, sorted) && sorted != []
    ensures Below(LineCompare, sorted[..|sorted| - 1], [sorted[|sorted| - 1]])
  {
  }

  lemma BelowOne(front: seq<Line>, row: Line, x: Line)
    requires Below(LineCompare, front, [x]) && x.pc > row.pc
    ensures Below(LineCompare, front + [row], [x])
  {
  }

  lemma BelowAll(sorted: seq<Line>, row: Line)
    requires Sorted(LineCompare, sorted) && forall k: nat :: k < |sorted| ==> sorted[k].idx < row.idx
    requires sorted != [] && sorted[|sorted| - 1].pc <= row.pc
    ensures Below(LineCompare, sorted, [row])
  {
    var n := |sorted| - 1;
    forall i: nat | i < |sorted| ensures LineCompare(sorted[i], row) <= 0 {
      assert i < n ==> LineCompare(sorted[i], sorted[n]) <= 0;
    }
  }

  lemma {:induction false} StableSortSorts(rows: seq<Line>)
    requires Indexed(rows)
    ensures multiset(StableSort(rows)) == multiset(rows)
    ensures Sorted(LineCompare, StableSort(rows))
    decreases |rows|
  {
    if rows != [] {
      var front, last := rows[..|rows| - 1], rows[|rows| - 1];
      StableSortSorts(front);
      InsertBehindPermutes(StableSort(front), last);
      assert rows == front + [last];
      forall k: nat | k < |StableSort(front)| ensures StableSort(front)[k].idx < last.idx {
        InPermutation(StableSort(front), front, k);
      }
      InsertBehindSorted(StableSort(front), last);
    }
  }

  /** Whatever order an unstable sort leaves the rows in, it is that of the stable sort by address. */
  lemma AnySortIsStable(rows: seq<Line>, t: seq<Line>)
    requires Indexed(rows) && multiset(t) == multiset(rows) && Sorted(LineCompare, t)
    ensures t == StableSort(rows)
  {
    LineCompareIsPreorder();
    StableSortSorts(rows);
    forall i: nat, j: nat | i < |t| && j < |t| && LineCompare(t[i], t[j]) == 0 ensures t[i] == t[j] {
      InPermutation(t, rows, i);
      InPermutation(t, rows, j);
    }
    SortedUnique(LineCompare, t, StableSort(rows));
  }

  /** The end of read_line_info: the rows are followed by the sentinel, and sorted in place. */
  method SortLines(ln: array<Line>, ghost rows: seq<Line>)
    requires Indexed(rows) && ln[..] == rows + [SENTINEL]
    modifies ln
    ensures ln[..] == StableSort(rows) + [SENTINEL]
  {
    hide TotalPreorder, Indexed, StableSort, Sorted;
    var count := ln.Length - 1;
    LineCompareIsPreorder();
    ghost var s := ln[..];
    var _ := QSort.QSort(ln, 0, count, LineCompare);
    ghost var t := ln[..];
    SortedBeforeSentinel(rows, s, t);
  }

  lemma SortedBeforeSentinel(rows: seq<Line>, s: seq<Line>, t: seq<Line>)
    requires Indexed(rows) && s == rows + [SENTINEL] && Rearranged(s, t, 0, |rows|) && Sorted(LineCompare, t[0..|rows|])
    ensures t == StableSort(rows) + [SENTINEL]
  {
    hide Indexed, StableSort, Sorted;
    var count := |rows|;
    assert s[0..count] == rows && s[count..] == [SENTINEL];
    AnySortIsStable(rows, t[0..count]);
    assert t == t[0..count] + t[count..];
  }

  // ----- searching rows -----

  /** line_search on entry i; looks at the next entry too. */
  function LineSearchCompare(t: seq<Line>, pc: nat, i: nat): int {
    if i + 1 >= |t| then -1
    else if pc < t[i].pc then -1
    else if pc >= t[i + 1].pc then 1
    else 0
  }

  function LineKey(t: seq<Line>, pc: nat): nat -> int {
    (i: nat) => LineSearchCompare(t, pc, i)
  }

  /** Of the rows that do not start above pc, the last to be added of those that start last. */
  ghost predicate IsLineFor(rows: seq<Line>, pc: nat, row: Line) {
    && row in rows && row.pc <= pc
    && forall e :: e in rows && e.pc <= pc ==> e.pc < row.pc || (e.pc == row.pc && e.idx <= row.idx)
  }

  lemma LineKeyIsPartitioned(t: seq<Line>, pc: nat)
    requires t != [] && forall i: nat, j: nat :: i < j < |t| ==> t[i].pc <= t[j].pc
    ensures Partitioned(|t| - 1, LineKey(t, pc))
  {
  }

  lemma SortedAddresses(rows: seq<Line>)
    requires Indexed(rows)
    ensures var t := StableSort(rows) + [SENTINEL];
      |t| == |rows| + 1 && forall i: nat, j: nat :: i < j < |t| ==> t[i].pc <= t[j].pc
  {
    StableSortSorts(rows);
    var s := StableSort(rows);
    assert |multiset(s)| == |multiset(rows)|;
    forall i: nat | i < |s| ensures s[i].pc <= MAX_PC {
      InPermutation(s, rows, i);
    }
    forall i: nat, j: nat | i < j < |s| ensures s[i].pc <= s[j].pc {
      assert LineCompare(s[i], s[j]) <= 0;
    }
  }

  /** The entry found is the one looked for. */
  lemma FoundIsLine(rows: seq<Line>, pc: nat, i: nat)
    requires Indexed(rows)
    requires var t := StableSort(rows) + [SENTINEL]; i + 1 < |t| && t[i].pc <= pc < t[i + 1].pc
    ensures IsLineFor(rows, pc, StableSort(rows)[i])
  {
    hide Indexed, StableSort, Sorted;
    var s := StableSort(rows);
    var t := s + [SENTINEL];
    StableSortSorts(rows);
    SortedAddresses(rows);
    InPermutation(s, rows, i);
    forall e | e in rows && e.pc <= pc ensures e.pc < s[i].pc || (e.pc == s[i].pc && e.idx <= s[i].idx) {
      InTable(rows, e);
      var k: nat :| k < |s| && s[k] == e;
      AddressAt(t, i + 1, k);
      if k < i {
        SortedAt(s, k, i);
      }
    }
  }

  lemma SortedAt(s: seq<Line>, i: nat, j: nat)
    requires Sorted(LineCompare, s) && i < j < |s|
    ensures LineCompare(s[i], s[j]) <= 0
  {
  }

  lemma AddressAt(t: seq<Line>, i: nat, j: nat)
    requires forall i: nat, j: nat :: i < j < |t| ==> t[i].pc <= t[j].pc
    ensures i <= j < |t| ==> t[i].pc <= t[j].pc
  {
  }

  /** Without an accepted entry every row starts above the address. */
  lemma {:induction false} NoneBelow(t: seq<Line>, pc: nat, i: nat)
    requires |t| > 0 && t[|t| - 1] == SENTINEL && pc < MAX_PC && i < |t|
    requires forall k: nat :: k < |t| - 1 ==> LineKey(t, pc)(k) != 0
    ensures pc < t[i].pc
    decreases |t| - i
  {
    if i + 1 < |t| {
      NoneBelow(t, pc, i + 1);
      assert LineKey(t, pc)(i) != 0;
    }
  }

  /** The line lookup of dwarf_lookup_pc, on the table that read_line_info has left. */
  method FindLine(ln: array<Line>, ghost rows: seq<Line>, pc: nat) returns (r: Option<Line>)
    requires Indexed(rows) && ln[..] == StableSort(rows) + [SENTINEL] && pc < MAX_PC
    ensures r.Some? ==> IsLineFor(rows, pc, r.value)
    ensures r.None? <==> forall e :: e in rows ==> pc < e.pc
  {
    hide StableSort, Indexed;
    var t := ln[..];
    SortedAddresses(rows);
    LineKeyIsPartitioned(t, pc);
    var found := BSearch(ln.Length - 1, LineKey(t, pc));
    if found.Some? {
      assert LineKey(t, pc)(found.value) == 0;
      FoundIsLine(rows, pc, found.value);
      r := Some(ln[found.value]);
    } else {
      r := None;
      forall e | e in rows ensures pc < e.pc {
        InTable(rows, e);
        var k: nat :| k < |StableSort(rows)| && StableSort(rows)[k] == e;
        NoneBelow(t, pc, k);
      }
    }
  }

  lemma InTable(rows: seq<Line>, e: Line)
    requires Indexed(rows) && e in rows
    ensures e in StableSort(rows)
  {
    StableSortSorts(rows);
    assert e in multiset(rows);
  }

  /** The row looked for is unique. */
  lemma LineIsUnique(rows: seq<Line>, pc: nat, row: Line, row': Line)
    requires Indexed(rows) && IsLineFor(rows, pc, row) && IsLineFor(rows, pc, row')
    ensures row == row'
  {
    var i: nat :| i < |rows| && rows[i] == row;
    var j: nat :| j < |rows| && rows[j] == row';
  }
}
