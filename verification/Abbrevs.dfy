/** The abbreviation tables of dwarf.c: read in two passes, the first to count, and searched by
    code. */
module Abbrevs {
  import opened Bits
  import opened QSort
  import opened Options
  import opened Search
  import opened Leb128

  const DW_FORM_IMPLICIT_CONST: nat := 0x21

  /** Names, forms and tags are stored in enums of 32 bits. */
  datatype Attr = Attr(name: nat, form: nat, val: int)

  datatype Abbrev = Abbrev(code: nat, tag: nat, hasChildren: byte, attrs: seq<Attr>)

  // ----- the format (section 7.5.3 of DWARF Version 5) -----

  /** A value and what is left after it, or the end of the input inside it. */
  datatype Parsed<+T> = Cut | Got(value: T, rest: seq<byte>)

  function Uleb(s: seq<byte>): Parsed<nat> {
    if Terminated(s) then Got(UlebWord(s), s[LebLen(s)..]) else Cut
  }

  function Sleb(s: seq<byte>): Parsed<int> {
    if Terminated(s) then Got(SlebWord(s), s[LebLen(s)..]) else Cut
  }

  predicate ImplicitConst(form: nat) {
    Low(form, 32) == DW_FORM_IMPLICIT_CONST
  }

  /** The value of an attribute stands in the table only for DW_FORM_implicit_const. */
  function Constant(form: nat, s: seq<byte>): Parsed<int> {
    if ImplicitConst(form) then Sleb(s) else Got(0, s)
  }

  function AsAttr(name: nat, form: nat, val: int): Attr {
    Attr(Low(name, 32), Low(form, 32), val)
  }

  /** Pairs of name and form, up to one with name 0. */
  function Attrs(s: seq<byte>): Parsed<seq<Attr>>
    decreases |s|
  {
    match Uleb(s)
    case Cut => Cut
    case Got(name, s1) =>
      match Uleb(s1)
      case Cut => Cut
      case Got(form, s2) =>
        if name == 0 then Got([], s2)
        else
          match Constant(form, s2)
          case Cut => Cut
          case Got(val, s3) => After([AsAttr(name, form, val)], Attrs(s3))
  }

  /** A list that continues with what is parsed next. */
  function After<T>(front: seq<T>, tail: Parsed<seq<T>>): Parsed<seq<T>> {
    match tail
    case Cut => Cut
    case Got(list, rest) => Got(front + list, rest)
  }

  /** One abbreviation behind its code. */
  function Body(code: nat, s: seq<byte>): Parsed<Abbrev> {
    match Uleb(s)
    case Cut => Cut
    case Got(tag, s1) =>
      if s1 == [] then Cut
      else
        match Attrs(s1[1..])
        case Cut => Cut
        case Got(attrs, s2) => Got(Abbrev(code, Low(tag, 32), s1[0], attrs), s2)
  }

  lemma {:induction false} AttrsShrink(s: seq<byte>)
    ensures Attrs(s).Got? ==> |Attrs(s).rest| < |s|
    decreases |s|
  {
    if Uleb(s).Got? {
      var s1 := Uleb(s).rest;
      if Uleb(s1).Got? && Uleb(s).value != 0 {
        var c := Constant(Uleb(s1).value, Uleb(s1).rest);
        if c.Got? {
          AttrsShrink(c.rest);
        }
      }
    }
  }

  /** Abbreviations up to a code 0. */
  function List(s: seq<byte>): Parsed<seq<Abbrev>>
    decreases |s|
  {
    match Uleb(s)
    case Cut => Cut
    case Got(code, s1) =>
      if code == 0 then Got([], s1)
      else
        match Body(code, s1)
        case Cut => Cut
        case Got(a, s2) =>
          (BodyShrinks(code, s1);
           After([a], List(s2)))
  }

  lemma BodyShrinks(code: nat, s: seq<byte>)
    ensures Body(code, s).Got? ==> |Body(code, s).rest| < |s|
  {
    if Uleb(s).Got? && Uleb(s).rest != [] {
      AttrsShrink(Uleb(s).rest[1..]);
    }
  }

  lemma AfterAfter<T>(a: seq<T>, b: seq<T>, p: Parsed<seq<T>>)
    ensures After(a, After(b, p)) == After(a + b, p)
  {
    if p.Got? {
      assert a + (b + p.value) == (a + b) + p.value;
    }
  }

  lemma AfterNone<T>(p: Parsed<seq<T>>)
    ensures After([], p) == p
  {
    if p.Got? {
      assert [] + p.value == p.value;
    }
  }

  // ----- reading -----

  /** How a buffer stands after something has been read from it: at what is left, or at its end with
      an underflow reported. */
  ghost predicate Stands<T>(p: Parsed<T>, underflow: bool, buf: DwarfBuf)
    reads buf
  {
    && buf.Valid()
    && if p.Got? then buf.Rest() == p.rest && buf.reportedUnderflow == underflow
       else buf.Rest() == [] && buf.reportedUnderflow
  }

  method ReadUleb(buf: DwarfBuf, ghost s: seq<byte>) returns (ret: nat)
    requires buf.Valid() && s == buf.Rest()
    modifies buf
    ensures Stands(Uleb(s), old(buf.reportedUnderflow), buf)
    ensures ret == if Uleb(s).Got? then Uleb(s).value else 0
  {
    ret := ReadUleb128(buf, s);
  }

  /** The value of an attribute, if it stands in the table. */
  method ReadConstant(buf: DwarfBuf, form: nat, ghost s: seq<byte>) returns (val: int)
    requires buf.Valid() && s == buf.Rest()
    modifies buf
    ensures Stands(Constant(form, s), old(buf.reportedUnderflow), buf)
    ensures val == if Constant(form, s).Got? then Constant(form, s).value else 0
  {
    val := 0;
    if ImplicitConst(form) {
      val := ReadSleb128(buf, s);
    }
  }

  /** The end of the input stays the end. */
  lemma NothingLeft()
    ensures Uleb([]).Cut? && Attrs([]).Cut? && List([]).Cut? && Constant(0, []) == Got(0, [])
  {
    LowSmall(0, 32);
  }

  /** Where the loops over attributes stop: s is what starts with the name 0, or with the end of
      the input. */
  ghost predicate AtLast(s0: seq<byte>, front: seq<Attr>, s: seq<byte>) {
    && Attrs(s0) == After(front, Attrs(s))
    && (Uleb(s).Cut? || Uleb(s).value == 0)
  }

  /** The loop that counts attributes; it has read the name behind the last. */
  method CountAttrs(buf: DwarfBuf, ghost s0: seq<byte>) returns (numAttrs: nat, ghost front: seq<Attr>,
                    ghost s: seq<byte>)
    requires buf.Valid() && s0 == buf.Rest()
    modifies buf
    ensures AtLast(s0, front, s) && Stands(Uleb(s), old(buf.reportedUnderflow), buf) && |front| == numAttrs
  {
    hide Attrs, Uleb, Constant, After;
    ghost var underflow := buf.reportedUnderflow;
    s, front, numAttrs := s0, [], 0;
    AfterNone(Attrs(s0));
    NothingLeft();
    var name := ReadUleb(buf, s);
    while name != 0
      invariant Stands(Uleb(s), underflow, buf) && name == (if Uleb(s).Got? then Uleb(s).value else 0)
      invariant Attrs(s0) == After(front, Attrs(s)) && |front| == numAttrs
      decreases |s|
    {
      numAttrs := numAttrs + 1;
      ghost var t := buf.Rest();
      var form := ReadUleb(buf, t);
      ghost var u := buf.Rest();
      var val := ReadConstant(buf, form, u);
      ghost var v := buf.Rest();
      NextAttr(s, v);
      AfterAfter(front, [AsAttr(name, form, val)], Attrs(v));
      front, s := front + [AsAttr(name, form, val)], v;
      name := ReadUleb(buf, s);
    }
  }

  /** One attribute further; a cut in it shows as a cut behind it. */
  lemma NextAttr(s: seq<byte>, v: seq<byte>)
    requires Uleb(s).Got? && Uleb(s).value != 0
    requires var f := Uleb(Uleb(s).rest);
      var c := if f.Got? then Constant(f.value, f.rest) else Cut;
      v == if c.Got? then c.rest else []
    ensures var f := Uleb(Uleb(s).rest);
      var form := if f.Got? then f.value else 0;
      var c := if f.Got? then Constant(f.value, f.rest) else Cut;
      Attrs(s) == After([AsAttr(Uleb(s).value, form, if c.Got? then c.value else 0)], Attrs(v)) && |v| < |s|
  {
    NothingLeft();
  }

  /** Nothing is cut in a list that parses. */
  lemma AttrsParse(s: seq<byte>)
    requires Attrs(s).Got?
    ensures Uleb(s).Got? && Uleb(Uleb(s).rest).Got?
    ensures var f := Uleb(Uleb(s).rest);
      if Uleb(s).value == 0 then Attrs(s) == Got([], f.rest)
      else
        var c := Constant(f.value, f.rest);
        && c.Got? && Attrs(c.rest).Got? && |c.rest| < |s|
        && Attrs(s) == After([AsAttr(Uleb(s).value, f.value, c.value)], Attrs(c.rest))
  {
  }

  lemma AfterLength<T>(front: seq<T>, p: Parsed<seq<T>>)
    requires p.Got?
    ensures |After(front, p).value| == |front| + |p.value|
  {
  }

  /** Reads attributes into the array that was allocated for them. */
  method FillAttrs(buf: DwarfBuf, attrs: array<Attr>, ghost s0: seq<byte>)
    requires buf.Valid() && s0 == buf.Rest() && !buf.reportedUnderflow
    requires Attrs(s0).Got? && attrs.Length == |Attrs(s0).value|
    modifies buf, attrs
    ensures Stands(Attrs(s0), false, buf) && attrs[..] == Attrs(s0).value
  {
    hide Attrs, Uleb, Constant;
    var numAttrs := 0;
    ghost var s := s0;
    AfterNone(Attrs(s0));
    while true
      invariant buf.Valid() && s == buf.Rest() && !buf.reportedUnderflow && Attrs(s).Got?
      invariant numAttrs <= attrs.Length && Attrs(s0) == After(attrs[..numAttrs], Attrs(s))
      decreases |s|
    {
      AttrsParse(s);
      AfterLength(attrs[..numAttrs], Attrs(s));
      var name := ReadUleb(buf, s);
      ghost var t := buf.Rest();
      var form := ReadUleb(buf, t);
      if name == 0 {
        break;
      }
      ghost var u, front := buf.Rest(), attrs[..numAttrs];
      var val := ReadConstant(buf, form, u);
      s := buf.Rest();
      AfterAfter(front, [AsAttr(name, form, val)], Attrs(s));
      AfterLength([AsAttr(name, form, val)], Attrs(s));
      attrs[numAttrs] := Attr(Low(name, 32), Low(form, 32), val);
      assert attrs[..numAttrs + 1] == front + [AsAttr(name, form, val)];
      numAttrs := numAttrs + 1;
    }
    assert attrs[..numAttrs] == attrs[..];
  }

  // ----- the counting pass -----

  lemma AtLastStands(s0: seq<byte>, front: seq<Attr>, s: seq<byte>)
    requires AtLast(s0, front, s)
    ensures Attrs(s0).Got? <==> Uleb(s).Got? && Uleb(Uleb(s).rest).Got?
    ensures Attrs(s0).Got? ==> Attrs(s0).rest == Uleb(Uleb(s).rest).rest && |Attrs(s0).value| == |front|
  {
  }

  /** Skips what follows the code of an abbreviation. */
  method SkipBody(buf: DwarfBuf, ghost code: nat, ghost s0: seq<byte>)
    requires buf.Valid() && s0 == buf.Rest()
    modifies buf
    ensures Stands(Body(code, s0), old(buf.reportedUnderflow), buf)
  {
    hide Attrs, Uleb, AtLast;
    NothingLeft();
    var _ := ReadUleb(buf, s0);
    ghost var s1 := buf.Rest();
    var _ := buf.ReadByte();
    ghost var s2 := buf.Rest();
    var _, front, s := CountAttrs(buf, s2);
    AtLastStands(s2, front, s);
    ghost var s3 := buf.Rest();
    var _ := ReadUleb(buf, s3);
  }

  /** One abbreviation further; a cut in it shows as a cut behind it. */
  lemma NextAbbrev(s: seq<byte>, v: seq<byte>, a: Abbrev)
    requires Uleb(s).Got? && Uleb(s).value != 0
    requires var p := Body(Uleb(s).value, Uleb(s).rest);
      if p.Got? then v == p.rest && a == p.value else v == []
    ensures List(s) == After([a], List(v)) && |v| < |s|
  {
    NothingLeft();
    BodyShrinks(Uleb(s).value, Uleb(s).rest);
  }

  /** The counting pass. */
  method CountAbbrevs(buf: DwarfBuf, ghost s0: seq<byte>) returns (numAbbrevs: nat)
    requires buf.Valid() && s0 == buf.Rest() && !buf.reportedUnderflow
    modifies buf
    ensures Stands(List(s0), false, buf)
    ensures List(s0).Got? ==> numAbbrevs == |List(s0).value|
  {
    hide List, Body, Uleb;
    numAbbrevs := 0;
    ghost var s, front := s0, [];
    AfterNone(List(s0));
    NothingLeft();
    var code := ReadUleb(buf, s);
    while code != 0
      invariant Stands(Uleb(s), s == [], buf) && code == (if Uleb(s).Got? then Uleb(s).value else 0)
      invariant List(s0) == After(front, List(s)) && |front| == numAbbrevs
      decreases |s|
    {
      if buf.reportedUnderflow {
        // a number was read, so the input had not ended
        assert false;
      }
      numAbbrevs := numAbbrevs + 1;
      ghost var t := buf.Rest();
      SkipBody(buf, code, t);
      ghost var v, p := buf.Rest(), Body(code, t);
      ghost var a := if p.Got? then p.value else Abbrev(0, 0, 0, []);
      NextAbbrev(s, v, a);
      AfterAfter(front, [a], List(v));
      front, s := front + [a], v;
      code := ReadUleb(buf, s);
    }
    ListEnds(s);
  }

  lemma ListEnds(s: seq<byte>)
    requires Uleb(s).Got? ==> Uleb(s).value == 0
    ensures List(s) == if Uleb(s).Got? then Got([], Uleb(s).rest) else Cut
  {
  }

  // ----- the filling pass -----

  lemma BodyParses(code: nat, s: seq<byte>)
    requires Body(code, s).Got?
    ensures Uleb(s).Got? && Uleb(s).rest != [] && Attrs(Uleb(s).rest[1..]).Got?
    ensures var s1 := Uleb(s).rest;
      Body(code, s) == Got(Abbrev(code, Low(Uleb(s).value, 32), s1[0], Attrs(s1[1..]).value), Attrs(s1[1..]).rest)
  {
  }

  /** No attributes: a name 0 and a form. */
  lemma NoAttrs(s: seq<byte>)
    requires Attrs(s).Got? && Attrs(s).value == []
    ensures Uleb(s).Got? && Uleb(Uleb(s).rest).Got? && Uleb(Uleb(s).rest).rest == Attrs(s).rest
  {
    AttrsParse(s);
  }

  /** What follows the code of an abbreviation; its attributes are counted in a copy of the buffer
      first. */
  method ReadBody(buf: DwarfBuf, code: nat, ghost s0: seq<byte>) returns (a: Abbrev)
    requires buf.Valid() && s0 == buf.Rest() && !buf.reportedUnderflow && Body(code, s0).Got?
    modifies buf
    ensures Stands(Body(code, s0), false, buf) && a == Body(code, s0).value
  {
    hide Attrs, Uleb, Body, AtLast;
    BodyParses(code, s0);
    var tag := ReadUleb(buf, s0);
    var hasChildren := buf.ReadByte();
    ghost var s1 := buf.Rest();
    var countBuf := new DwarfBuf(buf.bytes, buf.pos, buf.left, buf.reportedUnderflow);
    var numAttrs, front, s := CountAttrs(countBuf, s1);
    AtLastStands(s1, front, s);
    var attrs := new Attr[numAttrs];
    if numAttrs == 0 {
      NoAttrs(s1);
      var _ := ReadUleb(buf, s1);
      ghost var s2 := buf.Rest();
      var _ := ReadUleb(buf, s2);
    } else {
      FillAttrs(buf, attrs, s1);
    }
    a := Abbrev(code, Low(tag, 32), hasChildren, attrs[..]);
  }

  lemma ListParses(s: seq<byte>)
    requires List(s).Got?
    ensures Uleb(s).Got?
    ensures Uleb(s).value == 0 ==> List(s) == Got([], Uleb(s).rest)
    ensures Uleb(s).value != 0 ==>
      var p := Body(Uleb(s).value, Uleb(s).rest);
      p.Got? && List(p.rest).Got? && List(s) == After([p.value], List(p.rest)) && |p.rest| < |s|
  {
    BodyShrinks(Uleb(s).value, Uleb(s).rest);
  }

  /** The filling pass: stores exactly as many abbreviations as were counted. */
  method FillAbbrevs(buf: DwarfBuf, abbrevs: array<Abbrev>, ghost s0: seq<byte>)
    requires buf.Valid() && s0 == buf.Rest() && !buf.reportedUnderflow
    requires List(s0).Got? && abbrevs.Length == |List(s0).value|
    modifies buf, abbrevs
    ensures abbrevs[..] == List(s0).value
  {
    hide List, Uleb, Body;
    var numAbbrevs := 0;
    ghost var s := s0;
    AfterNone(List(s0));
    while true
      invariant buf.Valid() && s == buf.Rest() && !buf.reportedUnderflow && List(s).Got?
      invariant numAbbrevs <= abbrevs.Length && List(s0) == After(abbrevs[..numAbbrevs], List(s))
      decreases |s|
    {
      ListParses(s);
      AfterLength(abbrevs[..numAbbrevs], List(s));
      var code := ReadUleb(buf, s);
      if code == 0 {
        break;
      }
      ghost var t, front := buf.Rest(), abbrevs[..numAbbrevs];
      var a := ReadBody(buf, code, t);
      s := buf.Rest();
      AfterAfter(front, [a], List(s));
      AfterLength([a], List(s));
      abbrevs[numAbbrevs] := a;
      assert abbrevs[..numAbbrevs + 1] == front + [a];
      numAbbrevs := numAbbrevs + 1;
    }
    assert abbrevs[..numAbbrevs] == abbrevs[..];
  }

  // ----- the table -----

  /** abbrev_compare. */
  function AbbrevCompare(a1: Abbrev, a2: Abbrev): int {
    if a1.code < a2.code then -1 else if a1.code > a2.code then 1 else 0
  }

  lemma AbbrevCompareIsPreorder()
    ensures TotalPreorder(AbbrevCompare)
  {
  }

  /** read_abbrevs: succeeds exactly when the list of abbreviations is complete, and then has its
      entries, in order of their codes. */
  method ReadAbbrevs(dwarfAbbrev: seq<byte>, abbrevOffset: nat) returns (ok: bool, abbrevs: array<Abbrev>)
    ensures ok <==> abbrevOffset < |dwarfAbbrev| && List(dwarfAbbrev[abbrevOffset..]).Got?
    ensures ok ==> Sorted(AbbrevCompare, abbrevs[..]) && multiset(abbrevs[..]) == multiset(List(dwarfAbbrev[abbrevOffset..]).value)
    ensures fresh(abbrevs)
  {
    hide List;
    abbrevs := new Abbrev[0];
    if abbrevOffset >= |dwarfAbbrev| {
      return false, abbrevs;
    }
    ghost var s := dwarfAbbrev[abbrevOffset..];
    var abbrevBuf := new DwarfBuf(dwarfAbbrev, abbrevOffset, |dwarfAbbrev| - abbrevOffset, false);
    var countBuf := new DwarfBuf(dwarfAbbrev, abbrevOffset, |dwarfAbbrev| - abbrevOffset, false);
    var numAbbrevs := CountAbbrevs(countBuf, s);
    if countBuf.reportedUnderflow {
      return false, abbrevs;
    }
    if numAbbrevs == 0 {
      return true, abbrevs;
    }
    abbrevs := new Abbrev[numAbbrevs];
    FillAbbrevs(abbrevBuf, abbrevs, s);
    AbbrevCompareIsPreorder();
    ghost var list := abbrevs[..];
    var _ := QSort.QSort(abbrevs, 0, numAbbrevs, AbbrevCompare);
    assert abbrevs[..][0..numAbbrevs] == abbrevs[..] && list[0..numAbbrevs] == list;
    ok := true;
  }

  function CodeKey(t: seq<Abbrev>, code: nat): nat -> int {
    (i: nat) => if i < |t| then (if code < t[i].code then -1 else if code > t[i].code then 1 else 0) else -1
  }

  lemma CodeKeyIsPartitioned(t: seq<Abbrev>, code: nat)
    requires Sorted(AbbrevCompare, t)
    ensures Partitioned(|t|, CodeKey(t, code))
  {
    forall i: nat, j: nat | i < j < |t| ensures t[i].code <= t[j].code {
      assert AbbrevCompare(t[i], t[j]) <= 0;
    }
  }

  /** lookup_abbrev: finds an abbreviation exactly when the list it was read from has one with that
      code. */
  method LookupAbbrev(abbrevs: array<Abbrev>, code: nat, ghost list: seq<Abbrev>) returns (r: Option<Abbrev>)
    requires Sorted(AbbrevCompare, abbrevs[..]) && multiset(abbrevs[..]) == multiset(list)
    requires code < WORD && abbrevs.Length < WORD
    ensures r.Some? ==> r.value in list && r.value.code == code
    ensures r.None? ==> forall a :: a in list ==> a.code != code
  {
    ghost var t := abbrevs[..];
    var direct := (code + WORD - 1) % WORD;
    if direct < abbrevs.Length && abbrevs[direct].code == code {
      InPermutation(t, list, direct);
      return Some(abbrevs[direct]);
    }
    CodeKeyIsPartitioned(t, code);
    var p := BSearch(abbrevs.Length, CodeKey(abbrevs[..], code));
    if p.None? {
      forall a | a in list ensures a.code != code {
        assert a in multiset(t);
        var k: nat :| k < |t| && t[k] == a;
        assert CodeKey(t, code)(k) != 0;
      }
      return None;
    }
    InPermutation(t, list, p.value);
    return Some(abbrevs[p.value]);
  }

  /** With distinct codes the entry found is the only one. */
  lemma CodeIsUnique(list: seq<Abbrev>, a: Abbrev, b: Abbrev)
    requires forall i: nat, j: nat :: i < j < |list| ==> list[i].code != list[j].code
    requires a in list && b in list && a.code == b.code
    ensures a == b
  {
    var i: nat :| i < |list| && list[i] == a;
    var j: nat :| j < |list| && list[j] == b;
    assert list[i].code == list[j].code;
  }

  // ----- the format, written -----

  predicate ValidAttr(a: Attr) {
    && 0 < a.name < 0x1_0000_0000 && a.form < 0x1_0000_0000
    && if ImplicitConst(a.form) then 0 <= a.val + WORD / 2 && a.val < WORD / 2 else a.val == 0
  }

  predicate ValidAbbrev(a: Abbrev) {
    0 < a.code < WORD && a.tag < 0x1_0000_0000 && forall i: nat :: i < |a.attrs| ==> ValidAttr(a.attrs[i])
  }

  function EncodeAttr(a: Attr): seq<byte> {
    EncodeUleb(a.name) + (EncodeUleb(a.form) + (if ImplicitConst(a.form) then EncodeSleb(a.val) else []))
  }

  function EncodeAttrs(attrs: seq<Attr>): seq<byte> {
    if attrs == [] then EncodeUleb(0) + EncodeUleb(0) else EncodeAttr(attrs[0]) + EncodeAttrs(attrs[1..])
  }

  /** An abbreviation behind its code. */
  function EncodeBody(a: Abbrev): seq<byte> {
    EncodeUleb(a.tag) + ([a.hasChildren] + EncodeAttrs(a.attrs))
  }

  function EncodeList(list: seq<Abbrev>): seq<byte> {
    if list == [] then EncodeUleb(0)
    else EncodeUleb(list[0].code) + (EncodeBody(list[0]) + EncodeList(list[1..]))
  }

  lemma ReadsUleb(v: nat, rest: seq<byte>)
    requires v < WORD
    ensures Uleb(EncodeUleb(v) + rest) == Got(v, rest)
  {
    WordsRoundTrip(v, rest);
  }

  lemma StoredWord(v: nat)
    requires v < 0x1_0000_0000
    ensures Low(v, 32) == v
  {
    Pow2Words();
    LowSmall(v, 32);
  }

  lemma Reassociate<T>(a: seq<T>, b: seq<T>, c: seq<T>, rest: seq<T>)
    ensures (a + (b + c)) + rest == a + (b + (c + rest))
  {
  }

  lemma AttrStep(s: seq<byte>)
    requires Uleb(s).Got? && Uleb(s).value != 0 && Uleb(Uleb(s).rest).Got?
    ensures var f := Uleb(Uleb(s).rest);
      var c := Constant(f.value, f.rest);
      c.Got? ==> Attrs(s) == After([AsAttr(Uleb(s).value, f.value, c.value)], Attrs(c.rest))
  {
  }

  lemma ReadsConstant(a: Attr, rest: seq<byte>)
    requires ValidAttr(a)
    ensures Constant(a.form, (if ImplicitConst(a.form) then EncodeSleb(a.val) else []) + rest) == Got(a.val, rest)
  {
    WordsRoundTrip(a.val, rest);
    assert [] + rest == rest;
  }

  lemma ReadsAttr(a: Attr, rest: seq<byte>)
    requires ValidAttr(a)
    ensures Attrs(EncodeAttr(a) + rest) == After([a], Attrs(rest))
  {
    hide Attrs, Uleb, Constant, EncodeUleb, EncodeSleb, After, ImplicitConst;
    var c := if ImplicitConst(a.form) then EncodeSleb(a.val) else [];
    ReadsUleb(a.name, EncodeUleb(a.form) + (c + rest));
    ReadsUleb(a.form, c + rest);
    ReadsConstant(a, rest);
    Reassociate(EncodeUleb(a.name), EncodeUleb(a.form), c, rest);
    AttrStep(EncodeAttr(a) + rest);
    StoredWord(a.name);
    StoredWord(a.form);
  }

  lemma {:induction false} AttrsRoundTrip(attrs: seq<Attr>, rest: seq<byte>)
    requires forall i: nat :: i < |attrs| ==> ValidAttr(attrs[i])
    ensures Attrs(EncodeAttrs(attrs) + rest) == Got(attrs, rest)
    decreases |attrs|
  {
    hide Attrs, Uleb, EncodeUleb, EncodeAttr, ValidAttr;
    if attrs == [] {
      Reassociate(EncodeUleb(0), EncodeUleb(0), [], rest);
      assert EncodeUleb(0) + [] == EncodeUleb(0) && [] + rest == rest;
      ReadsUleb(0, EncodeUleb(0) + rest);
      ReadsUleb(0, rest);
      AttrsEnd(EncodeAttrs(attrs) + rest);
    } else {
      AttrsRoundTrip(attrs[1..], rest);
      assert EncodeAttrs(attrs) + rest == EncodeAttr(attrs[0]) + (EncodeAttrs(attrs[1..]) + rest);
      ReadsAttr(attrs[0], EncodeAttrs(attrs[1..]) + rest);
      assert attrs == [attrs[0]] + attrs[1..];
    }
  }

  lemma AttrsEnd(s: seq<byte>)
    requires Uleb(s).Got? && Uleb(s).value == 0 && Uleb(Uleb(s).rest).Got?
    ensures Attrs(s) == Got([], Uleb(Uleb(s).rest).rest)
  {
  }

  /** A table that is written in the format is read back, whatever follows it. */
  lemma {:induction false} ListRoundTrip(list: seq<Abbrev>, rest: seq<byte>)
    requires forall i: nat :: i < |list| ==> ValidAbbrev(list[i])
    ensures List(EncodeList(list) + rest) == Got(list, rest)
    decreases |list|
  {
    hide List, Uleb, Body, EncodeUleb, EncodeBody, ValidAbbrev;
    if list == [] {
      ReadsUleb(0, rest);
      ListEnds(EncodeList(list) + rest);
    } else {
      var a, tail := list[0], EncodeList(list[1..]) + rest;
      ListRoundTrip(list[1..], rest);
      CodesAreWords(a);
      Reassociate(EncodeUleb(a.code), EncodeBody(a), EncodeList(list[1..]), rest);
      ReadsUleb(a.code, EncodeBody(a) + tail);
      ReadsBody(a, tail);
      ListStep(EncodeList(list) + rest);
      assert list == [a] + list[1..];
    }
  }

  lemma CodesAreWords(a: Abbrev)
    requires ValidAbbrev(a)
    ensures 0 < a.code < WORD
  {
  }

  lemma ListStep(s: seq<byte>)
    requires Uleb(s).Got? && Uleb(s).value != 0 && Body(Uleb(s).value, Uleb(s).rest).Got?
    ensures List(s) == After([Body(Uleb(s).value, Uleb(s).rest).value], List(Body(Uleb(s).value, Uleb(s).rest).rest))
  {
    BodyShrinks(Uleb(s).value, Uleb(s).rest);
  }

  lemma ReadsBody(a: Abbrev, tail: seq<byte>)
    requires ValidAbbrev(a)
    ensures Body(a.code, EncodeBody(a) + tail) == Got(a, tail)
  {
    hide EncodeAttrs, Attrs, EncodeUleb, Uleb;
    var s2 := EncodeAttrs(a.attrs) + tail;
    Reassociate(EncodeUleb(a.tag), [a.hasChildren], EncodeAttrs(a.attrs), tail);
    AttrsRoundTrip(a.attrs, tail);
    ReadsUleb(a.tag, [a.hasChildren] + s2);
    assert ([a.hasChildren] + s2)[1..] == s2;
    StoredWord(a.tag);
  }
}
