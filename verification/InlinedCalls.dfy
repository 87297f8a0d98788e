/** report_inlined_functions and the function part of dwarf_lookup_pc: the frames that are reported
    for a pc inside calls that were inlined. */
module InlinedCalls {
  import opened Options
  import opened QSort
  import opened IntervalIndex

  /** A function: its name, where the call that was inlined stands, and the address ranges of the
      functions inlined into it, with the sentinel. */
  datatype Function = Function(name: string, callerFilename: string, callerLineno: int, addrs: seq<Entry<Function>>)

  /** The tie of function_addrs_compare. */
  function CompareNames(f1: Function, f2: Function): int {
    StrCmp(f1.name, f2.name)
  }

  /** Sorts the table that read_function_info has made. */
  method SortFunctions(a: array<Entry<Function>>)
    requires a.Length > 0 && a[a.Length - 1].low == MAX_PC
    requires forall i: nat :: i < a.Length ==> a[i].low <= MAX_PC && a[i].high <= MAX_PC
    modifies a
    ensures Table(a[..]) && Sorted(ByRange(CompareNames), a[..a.Length - 1])
    ensures multiset(a[..]) == old(multiset(a[..]))
  {
    NamesArePreorder();
    assert TotalPreorder(CompareNames);
    SortTable(a, CompareNames);
  }

  /** Of several functions with the same range the one found has the greatest name: a name comes before
      those it is a proper prefix of, and otherwise the first character that differs decides. */
  lemma GreatestName(t: seq<Entry<Function>>, pc: nat, i: nat, j: nat)
    requires Table(t) && Sorted(ByRange(CompareNames), t[..|t| - 1]) && Matches(t, pc, i)
    requires j < |t| - 1 && t[j].low == t[i].low && t[j].high == t[i].high
    ensures t[j].value.name == t[i].value.name || NameBefore(t[j].value.name, t[i].value.name)
  {
    if j != i {
      NamesArePreorder();
      FoundIsLast(t, CompareNames, pc, i, j);
      StrCmpMeans(t[j].value.name, t[i].value.name);
    }
  }

  /** Two names for the same code: the second is reported. */
  lemma AliasedFunctions(a: Function, b: Function)
    requires a.name == "a" && b.name == "b"
    ensures var t := [Entry(100, 200, a), Entry(100, 200, b), Entry(MAX_PC, MAX_PC, a)];
      Table(t) && Sorted(ByRange(CompareNames), t[..2]) && Matches(t, 150, 1)
    ensures !Sorted(ByRange(CompareNames), [Entry(100, 200, b), Entry(100, 200, a)])
  {
    var t := [Entry(100, 200, a), Entry(100, 200, b), Entry(MAX_PC, MAX_PC, a)];
    var wrong := [Entry(100, 200, b), Entry(100, 200, a)];
    assert StrCmp("a", "b") < 0 && StrCmp("b", "a") > 0;
    assert t[..2] == [Entry(100, 200, a), Entry(100, 200, b)];
    assert ByRange(CompareNames)(wrong[0], wrong[1]) > 0;
  }

  /** One call of the user's callback. */
  datatype Frame = Frame(filename: string, lineno: int, name: Option<string>)

  /** All tables, of functions inlined at any depth, are in order. */
  ghost predicate TablesIn(f: Function)
    decreases f
  {
    && (f.addrs == [] || Table(f.addrs))
    && forall i: nat :: i < |f.addrs| ==> TablesIn(f.addrs[i].value)
  }

  /** chain lists the calls inlined at pc, outermost first: each is the match for pc in the one
      before, and the last has none. */
  ghost predicate InlineChain(f: Function, pc: nat, chain: seq<Function>)
    decreases |chain|
  {
    if chain == [] then forall i: nat :: !Matches(f.addrs, pc, i)
    else
      && (exists i: nat :: Matches(f.addrs, pc, i) && f.addrs[i].value == chain[0])
      && InlineChain(chain[0], pc, chain[1..])
  }

  /** The position of the innermost frame is (filename, lineno); every further frame stands where the
      call that the frame before it was inlined for stands.  Innermost first. */
  function Frames(chain: seq<Function>, filename: string, lineno: int): seq<Frame> {
    if chain == [] then []
    else
      var inner := Frames(chain[1..], filename, lineno);
      var (file, line) := Position(chain[1..], filename, lineno);
      inner + [Frame(file, line, Some(chain[0].name))]
  }

  /** The position left for the caller of the whole chain. */
  function Position(chain: seq<Function>, filename: string, lineno: int): (string, int) {
    if chain == [] then (filename, lineno) else (chain[0].callerFilename, chain[0].callerLineno)
  }

  /** The calls made while the callback returns 0, up to and including the first that does not. */
  function Delivered(frames: seq<Frame>, callback: Frame -> int): seq<Frame> {
    if frames == [] then []
    else if callback(frames[0]) != 0 then [frames[0]]
    else [frames[0]] + Delivered(frames[1..], callback)
  }

  /** What the reporting returns. */
  function Outcome(frames: seq<Frame>, callback: Frame -> int): int {
    if frames == [] then 0
    else if callback(frames[0]) != 0 then callback(frames[0])
    else Outcome(frames[1..], callback)
  }

  lemma {:induction false} DeliveredConcat(a: seq<Frame>, b: seq<Frame>, callback: Frame -> int)
    ensures Outcome(a, callback) == 0 ==>
      Delivered(a, callback) == a && Delivered(a + b, callback) == a + Delivered(b, callback) && Outcome(a + b, callback) == Outcome(b, callback)
    ensures Outcome(a, callback) != 0 ==>
      Delivered(a + b, callback) == Delivered(a, callback) && Outcome(a + b, callback) == Outcome(a, callback)
    decreases |a|
  {
    if a == [] {
      assert a + b == b;
    } else {
      DeliveredConcat(a[1..], b, callback);
      assert (a + b)[1..] == a[1..] + b;
    }
  }

  /** The chain is determined by the function and the pc. */
  lemma {:induction false} ChainUnique(f: Function, pc: nat, c: seq<Function>, d: seq<Function>)
    requires TablesIn(f) && InlineChain(f, pc, c) && InlineChain(f, pc, d)
    ensures c == d
    decreases |c|
  {
    if c != [] {
      var i: nat :| Matches(f.addrs, pc, i) && f.addrs[i].value == c[0];
      assert d != [];
      var j: nat :| Matches(f.addrs, pc, j) && f.addrs[j].value == d[0];
      MatchIsSmallest(f.addrs, pc, i, j);
      ChainUnique(c[0], pc, c[1..], d[1..]);
    }
  }

  /** Frame k has the name of the call at depth |chain| - 1 - k, and stands where the call of the
      frame before it stands. */
  lemma {:induction false} FrameAt(chain: seq<Function>, filename: string, lineno: int, k: nat)
    requires k < |chain|
    ensures |Frames(chain, filename, lineno)| == |chain|
    ensures var frame := Frames(chain, filename, lineno)[k];
      && frame.name == Some(chain[|chain| - 1 - k].name)
      && (frame.filename, frame.lineno) ==
           if k == 0 then (filename, lineno) else (chain[|chain| - k].callerFilename, chain[|chain| - k].callerLineno)
    decreases |chain|
  {
    if |chain| > 1 {
      FrameAt(chain[1..], filename, lineno, if k < |chain| - 1 then k else 0);
    }
  }

  /** report_inlined_functions. */
  method ReportInlinedFunctions(pc: nat, function_: Function, callback: Frame -> int, filename: string, lineno: int)
    returns (ret: int, filename': string, lineno': int, calls: seq<Frame>, ghost chain: seq<Function>)
    requires pc <= MAX_PC && TablesIn(function_)
    ensures InlineChain(function_, pc, chain)
    ensures calls == Delivered(Frames(chain, filename, lineno), callback)
    ensures ret == Outcome(Frames(chain, filename, lineno), callback)
    ensures ret == 0 ==> (filename', lineno') == Position(chain, filename, lineno)
    decreases function_
  {
    ret, filename', lineno', calls, chain := 0, filename, lineno, [], [];
    if |function_.addrs| == 0 {
      return;
    }
    var match_ := Lookup(function_.addrs, pc);
    if match_.None? {
      return;
    }
    var inlined := function_.addrs[match_.value].value;
    ghost var inner;
    ret, filename', lineno', calls, inner := ReportInlinedFunctions(pc, inlined, callback, filename, lineno);
    chain := [inlined] + inner;
    ghost var own := Frame(Position(inner, filename, lineno).0, Position(inner, filename, lineno).1,
                           Some(inlined.name));
    DeliveredConcat(Frames(inner, filename, lineno), [own], callback);
    assert Frames(chain, filename, lineno) == Frames(inner, filename, lineno) + [own];
    if ret != 0 {
      return;
    }
    var frame := Frame(filename', lineno', Some(inlined.name));
    ret := callback(frame);
    calls := calls + [frame];
    if ret != 0 {
      return;
    }
    filename', lineno' := inlined.callerFilename, inlined.callerLineno;
  }

  /** What dwarf_lookup_pc reports for a pc on the line (filename, lineno): the calls inlined at pc,
      innermost first, and then the function around them; without a function, the line alone. */
  ghost predicate Reports(addrs: seq<Entry<Function>>, pc: nat, filename: string, lineno: int, frames: seq<Frame>) {
    if forall i: nat :: !Matches(addrs, pc, i) then frames == [Frame(filename, lineno, None)]
    else exists i: nat, chain: seq<Function> ::
        && Matches(addrs, pc, i) && InlineChain(addrs[i].value, pc, chain)
        && frames == Frames([addrs[i].value] + chain, filename, lineno)
  }

  /** The search for the function in dwarf_lookup_pc and the reports that follow. */
  method ReportFunctions(addrs: seq<Entry<Function>>, pc: nat, callback: Frame -> int, filename: string, lineno: int)
    returns (ret: int, calls: seq<Frame>, ghost frames: seq<Frame>)
    requires pc <= MAX_PC && (addrs == [] || Table(addrs))
    requires forall i: nat :: i < |addrs| ==> TablesIn(addrs[i].value)
    ensures Reports(addrs, pc, filename, lineno, frames)
    ensures calls == Delivered(frames, callback) && ret == Outcome(frames, callback)
  {
    var p: Option<nat> := None;
    if |addrs| != 0 {
      p := Lookup(addrs, pc);
    }
    if p.None? {
      var frame := Frame(filename, lineno, None);
      frames := [frame];
      ret := callback(frame);
      calls := [frame];
      return;
    }
    var function_ := addrs[p.value].value;
    var filename', lineno';
    ghost var chain;
    ret, filename', lineno', calls, chain := ReportInlinedFunctions(pc, function_, callback, filename, lineno);
    ghost var inner := Frames(chain, filename, lineno);
    ghost var (file, line) := Position(chain, filename, lineno);
    frames := inner + [Frame(file, line, Some(function_.name))];
    assert frames == Frames([function_] + chain, filename, lineno);
    DeliveredConcat(inner, [Frame(file, line, Some(function_.name))], callback);
    if ret != 0 {
      return;
    }
    var frame := Frame(filename', lineno', Some(function_.name));
    ret := callback(frame);
    calls := calls + [frame];
  }
}
