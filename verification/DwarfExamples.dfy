/** Numbers and an abbreviation table of DWARF, byte by byte. */
module DwarfExamples {
  import opened Bits
  import opened Options
  import opened QSort
  import opened Leb128
  import opened Abbrevs

  // ----- the tables of section 7.6 of DWARF Version 5 -----

  lemma UlebTable()
    ensures EncodeUleb(2) == [2] && EncodeUleb(127) == [127] && EncodeUleb(128) == [0x80, 1]
    ensures EncodeUleb(129) == [0x81, 1] && EncodeUleb(12857) == [0xb9, 0x64]
    ensures EncodeUleb(624485) == [0xe5, 0x8e, 0x26]
  {
    assert EncodeUleb(1) == [1] && EncodeUleb(100) == [100] && EncodeUleb(38) == [38];
    assert EncodeUleb(4878) == [0x8e, 0x26];
  }

  lemma SlebTable()
    ensures EncodeSleb(2) == [2] && EncodeSleb(-2) == [0x7e] && EncodeSleb(127) == [0xff, 0] && EncodeSleb(-127) == [0x81, 0x7f]
    ensures EncodeSleb(128) == [0x80, 1] && EncodeSleb(-128) == [0x80, 0x7f]
    ensures EncodeSleb(-123456) == [0xc0, 0xbb, 0x78]
  {
    assert EncodeSleb(0) == [0] && EncodeSleb(-1) == [0x7f] && EncodeSleb(1) == [1] && EncodeSleb(-8) == [0x78];
    assert EncodeSleb(-965) == [0xbb, 0x78];
  }

  /** What the readers make of these bytes, whatever follows them. */
  lemma NumbersRead(rest: seq<byte>)
    ensures Uleb([0xe5, 0x8e, 0x26] + rest) == Got(624485, rest) && Uleb([0xb9, 0x64] + rest) == Got(12857, rest)
    ensures Sleb([0xc0, 0xbb, 0x78] + rest) == Got(-123456, rest) && Sleb([0x81, 0x7f] + rest) == Got(-127, rest)
    ensures Sleb([0x80, 1] + rest) == Got(128, rest) && Uleb([0x80, 1] + rest) == Got(128, rest)
  {
    UlebTable();
    SlebTable();
    hide EncodeUleb, EncodeSleb, UlebWord, SlebWord, LebLen, Terminated;
    WordsRoundTrip(624485, rest);
    WordsRoundTrip(12857, rest);
    WordsRoundTrip(-123456, rest);
    WordsRoundTrip(-127, rest);
    WordsRoundTrip(128, rest);
  }

  // ----- a table with a constant in it -----

  /** Code 1: a compilation unit with children; its name as a string, and an attribute that is -5 for all
      units, given by DW_FORM_implicit_const, which is 0x21. */
  const TABLE: seq<byte> := [1, 0x11, 1, 3, 8, 0x3a, 0x21, 0x7b, 0, 0, 0]

  function Unit(): Abbrev {
    Abbrev(1, 0x11, 1, [Attr(3, 8, 0), Attr(0x3a, 0x21, -5)])
  }

  lemma Forms()
    ensures !ImplicitConst(8) && ImplicitConst(0x21) && !ImplicitConst(0x20) && !ImplicitConst(0x22)
  {
    StoredWord(8);
    StoredWord(0x20);
    StoredWord(0x21);
    StoredWord(0x22);
  }

  lemma TableEncoded()
    ensures EncodeList([Unit()]) == TABLE && ValidAbbrev(Unit())
  {
    Forms();
    hide ImplicitConst;
    var attrs := Unit().attrs;
    assert attrs[1..] == [Attr(0x3a, 0x21, -5)] && attrs[1..][1..] == [];
    assert EncodeAttr(attrs[0]) == [3, 8] && EncodeAttr(attrs[1]) == [0x3a, 0x21, 0x7b];
    assert EncodeAttrs(attrs) == [3, 8, 0x3a, 0x21, 0x7b, 0, 0];
    assert EncodeBody(Unit()) == [0x11, 1, 3, 8, 0x3a, 0x21, 0x7b, 0, 0];
    assert [Unit()][1..] == [];
  }

  /** The table is read as the one abbreviation, whatever follows it. */
  lemma TableParses(rest: seq<byte>)
    ensures List(TABLE + rest) == Got([Unit()], rest)
  {
    TableEncoded();
    hide List, EncodeList, ValidAbbrev;
    ListRoundTrip([Unit()], rest);
  }

  /** read_abbrevs on these bytes, and lookup_abbrev after it. */
  method ReadTable() returns (first: Option<Abbrev>, second: Option<Abbrev>)
    ensures first == Some(Unit()) && second == None
  {
    hide List;
    TableParses([]);
    assert TABLE + [] == TABLE && TABLE[0..] == TABLE;
    var ok, abbrevs := ReadAbbrevs(TABLE, 0);
    first := LookupAbbrev(abbrevs, 1, [Unit()]);
    second := LookupAbbrev(abbrevs, 2, [Unit()]);
  }
}
