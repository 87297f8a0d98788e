/** The deflate format of RFC 1951 as a relation: which tokens and blocks a bit stream carries at a
    given bit position, and what they expand to. */
module Deflate {
  import opened Options
  import opened Bits
  import opened CanonicalCode
  import opened BitReader
  import opened MatchCopy

  // ----- tokens (section 3.2.5) -----

  /** A literal byte, or a length symbol and a distance symbol with their extra bits. */
  datatype Token =
    | Literal(b: byte)
    | Match(lsym: nat, lextra: nat, dsym: nat, dextra: nat)

  /** The tables of section 3.2.5, for length codes 257..285 and distance codes 0..29. */
  const LENGTH_BASE: seq<nat> := [
    3, 4, 5, 6, 7, 8, 9, 10, 11, 13, 15, 17, 19, 23, 27, 31,
    35, 43, 51, 59, 67, 83, 99, 115, 131, 163, 195, 227, 258]
  const LENGTH_EXTRA: seq<nat> := [
    0, 0, 0, 0, 0, 0, 0, 0, 1, 1, 1, 1, 2, 2, 2, 2,
    3, 3, 3, 3, 4, 4, 4, 4, 5, 5, 5, 5, 0]
  const DIST_BASE: seq<nat> := [
    1, 2, 3, 4, 5, 7, 9, 13, 17, 25, 33, 49, 65, 97, 129, 193,
    257, 385, 513, 769, 1025, 1537, 2049, 3073, 4097, 6145, 8193, 12289, 16385, 24577]
  const DIST_EXTRA: seq<nat> := [
    0, 0, 0, 0, 1, 1, 2, 2, 3, 3, 4, 4, 5, 5, 6, 6,
    7, 7, 8, 8, 9, 9, 10, 10, 11, 11, 12, 12, 13, 13]

  const END_OF_BLOCK: nat := 256

  predicate LengthSymbol(s: nat) {
    257 <= s <= 285
  }

  predicate DistSymbol(s: nat) {
    s <= 29
  }

  function LengthExtra(s: nat): nat
    requires LengthSymbol(s)
  {
    LENGTH_EXTRA[s - 257]
  }

  function LengthOf(s: nat, extra: nat): nat
    requires LengthSymbol(s)
  {
    LENGTH_BASE[s - 257] + extra
  }

  function DistExtra(s: nat): nat
    requires DistSymbol(s)
  {
    DIST_EXTRA[s]
  }

  function DistOf(s: nat, extra: nat): nat
    requires DistSymbol(s)
  {
    DIST_BASE[s] + extra
  }

  predicate WellFormed(t: Token) {
    t.Match? ==> LengthSymbol(t.lsym) && DistSymbol(t.dsym)
  }

  /** The stream carries the code of symbol s at pos. */
  predicate SymbolAt(m: nat, pos: nat, lens: seq<nat>, s: nat) {
    Matches(lens, s, Shr(m, pos))
  }

  function LenAt(lens: seq<nat>, s: nat): nat {
    if s < |lens| then lens[s] else 0
  }

  /** Bit positions of the distance symbol and of the distance extra bits of a match. */
  function DistPos(pos: nat, lit: seq<nat>, t: Token): nat
    requires t.Match? && WellFormed(t)
  {
    pos + LenAt(lit, t.lsym) + LengthExtra(t.lsym)
  }

  function TokenEnd(pos: nat, lit: seq<nat>, dist: seq<nat>, t: Token): nat
    requires WellFormed(t)
  {
    match t
    case Literal(b) => pos + LenAt(lit, b)
    case Match(_, _, _, _) => DistPos(pos, lit, t) + LenAt(dist, t.dsym) + DistExtra(t.dsym)
  }

  predicate TokenAt(m: nat, pos: nat, lit: seq<nat>, dist: seq<nat>, t: Token) {
    match t
    case Literal(b) => SymbolAt(m, pos, lit, b)
    case Match(lsym, lextra, dsym, dextra) =>
      && WellFormed(t)
      && SymbolAt(m, pos, lit, lsym)
      && At(m, pos + LenAt(lit, lsym), LengthExtra(lsym)) == lextra
      && SymbolAt(m, DistPos(pos, lit, t), dist, dsym)
      && At(m, DistPos(pos, lit, t) + LenAt(dist, dsym), DistExtra(dsym)) == dextra
  }

  /** The stream carries the tokens and then the end-of-block symbol. */
  predicate BodyAt(m: nat, pos: nat, lit: seq<nat>, dist: seq<nat>, ts: seq<Token>)
    decreases ts
  {
    if ts == [] then SymbolAt(m, pos, lit, END_OF_BLOCK)
    else TokenAt(m, pos, lit, dist, ts[0]) && BodyAt(m, TokenEnd(pos, lit, dist, ts[0]), lit, dist, ts[1..])
  }

  function BodyEnd(pos: nat, lit: seq<nat>, dist: seq<nat>, ts: seq<Token>): nat
    decreases ts
  {
    if ts == [] then pos + LenAt(lit, END_OF_BLOCK)
    else if !WellFormed(ts[0]) then pos
    else BodyEnd(TokenEnd(pos, lit, dist, ts[0]), lit, dist, ts[1..])
  }

  // ----- meaning of tokens -----

  function ExpandToken(out: seq<byte>, t: Token): Option<seq<byte>> {
    match t
    case Literal(b) => Some(out + [b])
    case Match(lsym, lextra, dsym, dextra) =>
      if WellFormed(t) && DistOf(dsym, dextra) <= |out|
      then Some(Repeat(out, DistOf(dsym, dextra), LengthOf(lsym, lextra)))
      else None
  }

  /** The output after the tokens; None if a distance reaches before the start of the output. */
  function Expand(out: seq<byte>, ts: seq<Token>): Option<seq<byte>>
    decreases ts
  {
    if ts == [] then Some(out)
    else match ExpandToken(out, ts[0])
      case None => None
      case Some(out') => Expand(out', ts[1..])
  }

  lemma {:induction false} ExpandGrows(out: seq<byte>, ts: seq<Token>)
    requires Expand(out, ts).Some?
    ensures |Expand(out, ts).value| >= |out|
    decreases ts
  {
    if ts != [] {
      ExpandGrows(ExpandToken(out, ts[0]).value, ts[1..]);
    }
  }

  lemma {:induction false} BodyEndGrows(m: nat, pos: nat, lit: seq<nat>, dist: seq<nat>, ts: seq<Token>)
    requires BodyAt(m, pos, lit, dist, ts)
    ensures BodyEnd(pos, lit, dist, ts) > pos && BodyEnd(pos, lit, dist, ts) >= pos + LenAt(lit, END_OF_BLOCK)
    decreases ts
  {
    if ts != [] {
      BodyEndGrows(m, TokenEnd(pos, lit, dist, ts[0]), lit, dist, ts[1..]);
    }
  }

  // ----- the arithmetic the C code uses instead of the tables -----

  /** lit - 265 = 4 * (extra - 1) + r encodes the length 3 + 2^(extra + 2) + r * 2^extra, written as
      the C code computes it. */
  function LengthFormula(s: nat): nat
    requires 265 <= s <= 284
  {
    var l := s - 265;
    var extra := l / 4 + 1;
    Shl(l % 4, extra) + 11 + Shl(Pow2(extra - 1) - 1, 3)
  }

  function DistFormula(s: nat): nat
    requires 4 <= s <= 29
  {
    var d := s - 4;
    var extra := d / 2 + 1;
    Shl(d % 2, extra) + 5 + Shl(Pow2(extra - 1) - 1, 2)
  }

  lemma LengthFormulaIsTable(s: nat)
    requires 265 <= s <= 284
    ensures LengthExtra(s) == (s - 265) / 4 + 1 && LENGTH_BASE[s - 257] == LengthFormula(s)
  {
    var extra := (s - 265) / 4 + 1;
    ShlIsTimes((s - 265) % 4, extra);
    ShlIsTimes(Pow2(extra - 1) - 1, 3);
  }

  lemma DistFormulaIsTable(s: nat)
    requires 4 <= s <= 29
    ensures DistExtra(s) == (s - 4) / 2 + 1 && DIST_BASE[s] == DistFormula(s)
  {
    var k := (s - 4) / 2;
    ShlBit((s - 4) % 2, k);
    SmallPow2(k);
    DistTable(s, k, Pow2(k));
    assert Shl(Pow2(k) - 1, 2) == 2 * Shl(Pow2(k) - 1, 1) == 4 * (Pow2(k) - 1);
  }

  lemma ShlBit(b: nat, k: nat)
    requires b < 2
    ensures Shl(b, k + 1) == if b == 1 then 2 * Pow2(k) else 0
  {
    ShlIsTimes(b, k + 1);
  }

  lemma DistTable(s: nat, k: nat, p: nat)
    requires 4 <= s <= 29 && k == (s - 4) / 2
    requires p == [1, 2, 4, 8, 16, 32, 64, 128, 256, 512, 1024, 2048, 4096][k]
    ensures DIST_EXTRA[s] == k + 1
    ensures DIST_BASE[s] == (if s % 2 == 1 then 2 * p else 0) + 4 * p + 1
  {
    if s < 17 {
      DistTableLow(s, k, p);
    } else {
      DistTableHigh(s, k, p);
    }
  }

  lemma DistTableLow(s: nat, k: nat, p: nat)
    requires 4 <= s < 17 && k == (s - 4) / 2 && p == [1, 2, 4, 8, 16, 32, 64][k]
    ensures DIST_EXTRA[s] == k + 1
    ensures DIST_BASE[s] == (if s % 2 == 1 then 2 * p else 0) + 4 * p + 1
  {
  }

  lemma DistTableHigh(s: nat, k: nat, p: nat)
    requires 17 <= s <= 29 && k == (s - 4) / 2 && p == [64, 128, 256, 512, 1024, 2048, 4096][k - 6]
    ensures DIST_EXTRA[s] == k + 1
    ensures DIST_BASE[s] == (if s % 2 == 1 then 2 * p else 0) + 4 * p + 1
  {
  }

  lemma SmallPow2(k: nat)
    requires k < 13
    ensures Pow2(k) == [1, 2, 4, 8, 16, 32, 64, 128, 256, 512, 1024, 2048, 4096][k]
  {
  }
}
