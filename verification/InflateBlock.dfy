/** The main loop of elf_zlib_inflate: decodes the tokens of one Huffman-coded block. */
module InflateBlock {
  import opened Options
  import opened Bits
  import opened CanonicalCode
  import opened HuffmanTable
  import opened BitReader
  import opened MatchCopy
  import opened Deflate

  lemma LookupWidth(t: seq<nat>, w: nat)
    requires |t| == TABLE_SIZE
    ensures 1 <= Lookup(t, w).1 <= 15
  {
    SecondaryIndex(t[w % PRIMARY], w / PRIMARY);
  }

  /** Whether a window starts with a code of at most n bits only depends on its low n bits. */
  lemma MatchesLow(lens: seq<nat>, s: nat, w: nat, n: nat)
    requires s < |lens| && lens[s] <= n
    ensures Matches(lens, s, Low(w, n)) <==> Matches(lens, s, w)
  {
    LowLow(w, lens[s], n);
  }

  /** Looks up the next symbol and consumes its code. */
  method DecodeSymbol(r: Reservoir, table: array<nat>, ghost lens: seq<nat>, ghost s: nat) returns (sym: nat)
    requires r.Valid() && r.bits >= 15 && table.Length == TABLE_SIZE
    modifies r`val, r`bits
    ensures r.Valid() && old(r.Pos()) < r.Pos() <= old(r.Pos()) + 15 && r.Limit() == old(r.Limit())
    ensures Fits(lens) && Represents(table[..], lens) && old(SymbolAt(r.Stream(), r.Pos(), lens, s)) ==>
              sym == s && r.Pos() == old(r.Pos()) + LenAt(lens, s)
  {
    ghost var w := Shr(r.Stream(), r.Pos());
    LookupWidth(table[..], r.val);
    if Fits(lens) && SymbolAt(r.Stream(), r.Pos(), lens, s) {
      MatchesLow(lens, s, w, r.bits);
    }
    ghost var val0 := r.val;
    var e := table[r.val % PRIMARY];
    if !IsSecondary(e) {
      sym := Value(e);
      var _ := r.Take(SizeBits(e) + 1);
    } else {
      SecondaryIndex(e, r.val / PRIMARY);
      var f := table[Value(e) + PRIMARY + Low(r.val / PRIMARY, SizeBits(e))];
      sym := Value(f);
      var _ := r.Take(SizeBits(f) + 8);
    }
    assert sym == Lookup(table[..], val0).0 && r.Pos() == old(r.Pos()) + Lookup(table[..], val0).1;
  }

  /** Refills the reservoir and decodes the next symbol. */
  method NextSymbol(r: Reservoir, table: array<nat>, ghost lens: seq<nat>, ghost s: nat) returns (ok: bool, sym: nat)
    requires r.Valid() && r.Aligned() && table.Length == TABLE_SIZE
    modifies r
    ensures r.Valid() && r.Aligned() && r.Limit() == old(r.Limit())
    ensures if ok then old(r.Pos()) < r.Pos() <= old(r.Pos()) + 15 else r.Starved() && r.Pos() == old(r.Pos())
    ensures ok <==> old(r.Pos()) + 15 <= r.Limit()
    ensures ok ==> 15 <= 8 * r.pin - old(r.Pos()) <= 46
    ensures ok && Fits(lens) && Represents(table[..], lens) && old(SymbolAt(r.Stream(), r.Pos(), lens, s)) ==>
              sym == s && r.Pos() == old(r.Pos()) + LenAt(lens, s)
  {
    sym := 0;
    ok := r.Fetch();
    if ok {
      sym := DecodeSymbol(r, table, lens, s);
    }
  }

  /** Converts a symbol above 256 into a length. */
  method ReadLength(r: Reservoir, lit: nat) returns (ok: bool, len: nat)
    requires r.Valid() && r.Aligned() && lit > END_OF_BLOCK
    modifies r
    ensures r.Valid() && r.Aligned() && r.Pos() >= old(r.Pos()) && r.Limit() == old(r.Limit())
    ensures ok ==> LengthSymbol(lit) && r.Pos() == old(r.Pos()) + LengthExtra(lit)
    ensures ok ==> len == LengthOf(lit, At(r.Stream(), old(r.Pos()), LengthExtra(lit)))
    ensures !ok ==> lit > 285 || (r.Starved() && r.Pos() == old(r.Pos()) && LengthExtra(lit) > 0)
  {
    if lit < 265 {
      return true, lit - 257 + 3;
    } else if lit == 285 {
      return true, 258;
    } else if lit > 285 {
      return false, 0;
    }
    ok := r.Fetch();
    if !ok {
      return false, 0;
    }
    LengthFormulaIsTable(lit);
    var x := r.Take((lit - 265) / 4 + 1);
    len := LengthFormula(lit) + x;
  }

  /** Converts a distance symbol into a distance. */
  method ReadDistance(r: Reservoir, dsym: nat) returns (ok: bool, dist: nat)
    requires r.Valid() && r.Aligned()
    modifies r
    ensures r.Valid() && r.Aligned() && r.Pos() >= old(r.Pos()) && r.Limit() == old(r.Limit())
    ensures ok ==> DistSymbol(dsym) && r.Pos() == old(r.Pos()) + DistExtra(dsym)
    ensures ok ==> dist == DistOf(dsym, At(r.Stream(), old(r.Pos()), DistExtra(dsym))) && dist > 0
    ensures !ok ==> dsym > 29 || (r.Starved() && r.Pos() == old(r.Pos()) && DistExtra(dsym) > 0)
  {
    if dsym > 29 {
      return false, 0;
    } else if dsym < 4 {
      return true, dsym + 1;
    }
    ok := r.Fetch();
    if !ok {
      return false, 0;
    }
    DistFormulaIsTable(dsym);
    var x := r.Take((dsym - 4) / 2 + 1);
    dist := DistFormula(dsym) + x;
  }

  /** Token t does not fit the output: its distance is too large or there is no room for it. */
  ghost predicate Unfit(out: seq<byte>, t: Token, size: nat) {
    ExpandToken(out, t).None? || |ExpandToken(out, t).value| > size
  }

  /** The tests before a copy cast the room that is left, and the output so far, to 32 bits.  (For a
      distance of one the latter is not cast.)  The casts do not change the outcome for token t. */
  predicate NarrowToken(out: seq<byte>, t: Token, size: nat) {
    t.Match? && WellFormed(t) && |out| <= size ==>
      var len, d := LengthOf(t.lsym, t.lextra), DistOf(t.dsym, t.dextra);
      && (len <= size - |out| ==> len <= U32(size - |out|))
      && (1 < d <= |out| ==> d <= U32(|out|))
  }

  /** The stream carries, from pos on, what follows the length symbol of the match t. */
  predicate MatchRestAt(m: nat, pos: nat, dist: seq<nat>, t: Token) {
    && t.Match? && WellFormed(t)
    && At(m, pos, LengthExtra(t.lsym)) == t.lextra
    && SymbolAt(m, pos + LengthExtra(t.lsym), dist, t.dsym)
    && At(m, pos + LengthExtra(t.lsym) + LenAt(dist, t.dsym), DistExtra(t.dsym)) == t.dextra
  }

  function MatchRestEnd(pos: nat, dist: seq<nat>, t: Token): nat
    requires t.Match? && WellFormed(t)
  {
    pos + LengthExtra(t.lsym) + LenAt(dist, t.dsym) + DistExtra(t.dsym)
  }

  /** Reads the length of a match and its distance symbol. */
  method ReadLengthAndSymbol(r: Reservoir, tdist: array<nat>, sym: nat, ghost dist: seq<nat>, ghost t: Token)
    returns (ok: bool, len: nat, dsym: nat)
    requires r.Valid() && r.Aligned() && tdist.Length == TABLE_SIZE && sym > END_OF_BLOCK
    modifies r
    ensures r.Valid() && r.Aligned() && r.Pos() >= old(r.Pos()) && r.Limit() == old(r.Limit())
    ensures ok ==> LengthSymbol(sym)
    ensures Fits(dist) && old(Represents(tdist[..], dist)) && old(MatchRestAt(r.Stream(), r.Pos(), dist, t)) && t.lsym == sym ==>
      if ok then len == LengthOf(t.lsym, t.lextra) && dsym == t.dsym
                 && r.Pos() == old(r.Pos()) + LengthExtra(t.lsym) + LenAt(dist, t.dsym)
      else r.Starved() && r.Pos() <= old(r.Pos()) + LengthExtra(t.lsym)
  {
    hide Represents, Fits, At, SymbolAt;
    dsym := 0;
    ok, len := ReadLength(r, sym);
    if !ok {
      return;
    }
    ok, dsym := NextSymbol(r, tdist, dist, if t.Match? then t.dsym else 0);
  }

  /** Reads the length and the distance of a match whose length symbol has been read. */
  method ReadMatch(r: Reservoir, tdist: array<nat>, sym: nat, ghost dist: seq<nat>, ghost t: Token)
    returns (ok: bool, len: nat, d: nat)
    requires r.Valid() && r.Aligned() && tdist.Length == TABLE_SIZE && sym > END_OF_BLOCK
    modifies r
    ensures r.Valid() && r.Aligned() && r.Pos() >= old(r.Pos()) && r.Limit() == old(r.Limit())
    ensures ok ==> LengthSymbol(sym) && d > 0
    ensures Fits(dist) && old(Represents(tdist[..], dist)) && old(MatchRestAt(r.Stream(), r.Pos(), dist, t)) && t.lsym == sym ==>
      if ok then r.Pos() == MatchRestEnd(old(r.Pos()), dist, t)
                 && len == LengthOf(t.lsym, t.lextra) && d == DistOf(t.dsym, t.dextra)
      else r.Starved() && r.Pos() < MatchRestEnd(old(r.Pos()), dist, t)
  {
    d := 0;
    var dsym;
    ok, len, dsym := ReadLengthAndSymbol(r, tdist, sym, dist, t);
    if !ok {
      return;
    }
    ok, d := ReadDistance(r, dsym);
  }

  /** The tests before a copy. */
  method TestCopy(done: nat, size: nat, len: nat, d: nat) returns (ok: bool)
    requires done <= size && d > 0
    ensures ok <==> d <= done && len <= size - done && len <= U32(size - done) && (1 < d ==> d <= U32(done))
  {
    if d == 1 {
      if done == 0 {
        return false;
      }
    } else if U32(done) < d {
      return false;
    }
    ok := U32(size - done) >= len;
  }

  /** They decide whether the match can be expanded. */
  lemma CopyTested(out: seq<byte>, t: Token, size: nat, len: nat, d: nat)
    requires t.Match? && WellFormed(t) && |out| <= size
    requires len == LengthOf(t.lsym, t.lextra) && d == DistOf(t.dsym, t.dextra)
    ensures d <= |out| && len <= size - |out| && len <= U32(size - |out|) && (1 < d ==> d <= U32(|out|))
       <==> !Unfit(out, t, size) && NarrowToken(out, t, size)
    ensures d <= |out| ==> ExpandToken(out, t) == Some(Repeat(out, d, len))
  {
  }

  /** The rest of a match whose length symbol has been read: decodes it and copies. */
  method InflateMatch(r: Reservoir, tdist: array<nat>, sym: nat, out: array<byte>, pout0: nat,
                      ghost dist: seq<nat>, ghost t: Token)
    returns (ok: bool, pout: nat)
    requires r.Valid() && r.Aligned() && tdist.Length == TABLE_SIZE && sym > END_OF_BLOCK
    requires pout0 <= out.Length
    modifies r, out
    ensures r.Valid() && r.Aligned() && pout0 <= pout <= out.Length
    ensures r.Pos() >= old(r.Pos()) && r.Limit() == old(r.Limit())
    ensures Fits(dist) && old(Represents(tdist[..], dist)) && old(MatchRestAt(r.Stream(), r.Pos(), dist, t)) && t.lsym == sym ==>
      if ok then r.Pos() == MatchRestEnd(old(r.Pos()), dist, t) && ExpandToken(old(out[..pout0]), t) == Some(out[..pout])
                 && NarrowToken(old(out[..pout0]), t, out.Length)
      else Unfit(old(out[..pout0]), t, out.Length) || !NarrowToken(old(out[..pout0]), t, out.Length) || (r.Starved() && r.Pos() < MatchRestEnd(old(r.Pos()), dist, t))
  {
    hide Represents, Fits, At, SymbolAt, NarrowToken, Unfit, ExpandToken, U32, MatchRestEnd;
    var len, d;
    pout := pout0;
    ok, len, d := ReadMatch(r, tdist, sym, dist, t);
    if !ok {
      return;
    }
    if t.Match? && WellFormed(t) && len == LengthOf(t.lsym, t.lextra) && d == DistOf(t.dsym, t.dextra) {
      CopyTested(out[..pout0], t, out.Length, len, d);
    }
    ok := TestCopy(pout0, out.Length, len, d);
    if !ok {
      return;
    }
    pout := CopyMatch(out, pout0, d, len);
  }

  datatype Status = Continue | EndOfBlock | Failed

  /** What comes next in a block: a token, or its end. */
  function FirstSymbol(next: Option<Token>): nat {
    match next
    case None => END_OF_BLOCK
    case Some(Literal(b)) => b
    case Some(Match(lsym, _, _, _)) => lsym
  }

  predicate NextAt(m: nat, pos: nat, lit: seq<nat>, dist: seq<nat>, next: Option<Token>) {
    match next
    case None => SymbolAt(m, pos, lit, END_OF_BLOCK)
    case Some(t) => TokenAt(m, pos, lit, dist, t)
  }

  function NextEnd(pos: nat, lit: seq<nat>, dist: seq<nat>, next: Option<Token>): nat {
    match next
    case None => pos + LenAt(lit, END_OF_BLOCK)
    case Some(t) => if WellFormed(t) then TokenEnd(pos, lit, dist, t) else pos
  }

  /** No refill for what comes next is behind this position: the code of an end of block begins, or a
      token ends. */
  function LastRefill(pos: nat, lit: seq<nat>, dist: seq<nat>, next: Option<Token>): int {
    if next.None? then pos else NextEnd(pos, lit, dist, next) - 1
  }

  lemma NextParts(m: nat, pos: nat, lit: seq<nat>, dist: seq<nat>, next: Option<Token>)
    requires NextAt(m, pos, lit, dist, next)
    ensures SymbolAt(m, pos, lit, FirstSymbol(next)) && NextEnd(pos, lit, dist, next) > pos
    ensures next.Some? && next.value.Match? ==>
              var p := pos + LenAt(lit, next.value.lsym);
              MatchRestAt(m, p, dist, next.value) && MatchRestEnd(p, dist, next.value) == NextEnd(pos, lit, dist, next)
    ensures next.Some? && next.value.Literal? ==> NextEnd(pos, lit, dist, next) == pos + LenAt(lit, next.value.b)
  {
  }

  ghost predicate Decodes(tlit: seq<nat>, tdist: seq<nat>, lit: seq<nat>, dist: seq<nat>) {
    Fits(lit) && Fits(dist) && Represents(tlit, lit) && Represents(tdist, dist)
  }

  /** One iteration of the main loop. */
  method InflateStep(r: Reservoir, tlit: array<nat>, tdist: array<nat>, out: array<byte>, pout0: nat,
                     ghost lit: seq<nat>, ghost dist: seq<nat>, ghost next: Option<Token>)
    returns (status: Status, pout: nat)
    requires r.Valid() && r.Aligned() && tlit.Length == tdist.Length == TABLE_SIZE && pout0 <= out.Length
    modifies r, out
    ensures r.Valid() && r.Aligned() && pout0 <= pout <= out.Length
    ensures r.Pos() >= old(r.Pos()) && r.Limit() == old(r.Limit())
    ensures status == Continue ==> r.Pos() > old(r.Pos())
    ensures status == EndOfBlock ==> pout == pout0 && out[..] == old(out[..])
    ensures old(Decodes(tlit[..], tdist[..], lit, dist) && NextAt(r.Stream(), r.Pos(), lit, dist, next)) ==>
      match status
      case Continue => next.Some? && r.Pos() == NextEnd(old(r.Pos()), lit, dist, next)
                       && ExpandToken(old(out[..pout0]), next.value) == Some(out[..pout])
                       && NarrowToken(old(out[..pout0]), next.value, out.Length)
      case EndOfBlock => next.None? && r.Pos() == NextEnd(old(r.Pos()), lit, dist, next)
                         && old(r.Pos()) + 15 <= r.Limit() && 15 <= 8 * r.pin - old(r.Pos()) <= 46
      case Failed => (r.Starved() && r.Pos() <= LastRefill(old(r.Pos()), lit, dist, next))
                     || (next.Some? && Unfit(old(out[..pout0]), next.value, out.Length))
                     || (next.Some? && !NarrowToken(old(out[..pout0]), next.value, out.Length))
  {
    hide Represents, Fits, At, SymbolAt, TokenAt, NextAt, MatchRestAt, MatchRestEnd, TokenEnd, Expand, U32;
    ghost var m, p := r.Stream(), r.Pos();
    if NextAt(m, p, lit, dist, next) {
      NextParts(m, p, lit, dist, next);
    }
    pout := pout0;
    var ok, sym := NextSymbol(r, tlit, lit, FirstSymbol(next));
    if !ok {
      return Failed, pout;
    }
    if sym < 256 {
      if pout == out.Length {
        assert next == Some(Literal(sym)) ==> Unfit(out[..pout0], next.value, out.Length);
        return Failed, pout;
      }
      out[pout] := sym;
      assert out[..pout + 1] == old(out[..pout0]) + [sym];
      pout := pout + 1;
      status := Continue;
    } else if sym == END_OF_BLOCK {
      status := EndOfBlock;
    } else {
      ok, pout := InflateMatch(r, tdist, sym, out, pout, dist, next.GetOr(Literal(0)));
      status := if ok then Continue else Failed;
    }
  }

  function NextOf(ts: seq<Token>): Option<Token> {
    if ts == [] then None else Some(ts[0])
  }

  lemma BodyParts(m: nat, pos: nat, lit: seq<nat>, dist: seq<nat>, ts: seq<Token>)
    requires BodyAt(m, pos, lit, dist, ts)
    ensures NextAt(m, pos, lit, dist, NextOf(ts))
    ensures pos < NextEnd(pos, lit, dist, NextOf(ts)) <= BodyEnd(pos, lit, dist, ts)
    ensures LastRefill(pos, lit, dist, NextOf(ts)) <= BodyLast(pos, lit, dist, ts)
    ensures ts == [] ==> BodyEnd(pos, lit, dist, ts) == NextEnd(pos, lit, dist, None)
    ensures ts != [] ==>
              var p := NextEnd(pos, lit, dist, NextOf(ts));
              BodyAt(m, p, lit, dist, ts[1..]) && BodyEnd(p, lit, dist, ts[1..]) == BodyEnd(pos, lit, dist, ts)
  {
    NextParts(m, pos, lit, dist, NextOf(ts));
    if ts != [] {
      BodyEndGrows(m, TokenEnd(pos, lit, dist, ts[0]), lit, dist, ts[1..]);
    }
  }

  /** Where the code of the end-of-block symbol begins, which is where the last refill happens. */
  function BodyLast(pos: nat, lit: seq<nat>, dist: seq<nat>, ts: seq<Token>): int {
    BodyEnd(pos, lit, dist, ts) - LenAt(lit, END_OF_BLOCK)
  }

  /** The tokens still to come are ts; decoding them from here gives the same end position and the
      same output as decoding the whole block. */
  ghost predicate Progress(m: nat, pos: nat, lit: seq<nat>, dist: seq<nat>, out: seq<byte>, ts: seq<Token>,
                           end: nat, total: Option<seq<byte>>) {
    BodyAt(m, pos, lit, dist, ts) && BodyEnd(pos, lit, dist, ts) == end && Expand(out, ts) == total
  }

  /** The casts do not change the outcome for any of the tokens. */
  ghost predicate NarrowTokens(out: seq<byte>, ts: seq<Token>, size: nat)
    decreases ts
  {
    ts == []
    || (&& NarrowToken(out, ts[0], size)
        && match ExpandToken(out, ts[0])
           case None => true
           case Some(out') => NarrowTokens(out', ts[1..], size))
  }

  /** A buffer of less than 2^32 bytes has no such casts. */
  lemma {:induction false} SmallTokens(out: seq<byte>, ts: seq<Token>, size: nat)
    requires size < 0x1_0000_0000 && Expand(out, ts).Some? && |Expand(out, ts).value| <= size
    ensures NarrowTokens(out, ts, size)
    decreases ts
  {
    ExpandGrows(out, ts);
    if ts != [] {
      SmallTokens(ExpandToken(out, ts[0]).value, ts[1..], size);
    }
  }

  lemma UnfitTotal(out: seq<byte>, ts: seq<Token>, size: nat)
    requires ts != [] && Unfit(out, ts[0], size)
    ensures Expand(out, ts).None? || |Expand(out, ts).value| > size
  {
    if Expand(out, ts).Some? {
      ExpandGrows(ExpandToken(out, ts[0]).value, ts[1..]);
    }
  }

  /** The main loop, on any stream that carries the tokens ts: success means the output is their
      expansion and the reader is just after the end-of-block symbol; and it succeeds exactly when the
      input reaches to the last refill, the tokens fit the output and no cast cuts a difference. */
  method InflateBody(r: Reservoir, tlit: array<nat>, tdist: array<nat>, out: array<byte>, pout0: nat,
                     ghost lit: seq<nat>, ghost dist: seq<nat>, ghost ts: seq<Token>)
    returns (ok: bool, pout: nat)
    requires r.Valid() && r.Aligned() && tlit.Length == tdist.Length == TABLE_SIZE && pout0 <= out.Length
    modifies r, out
    ensures r.Valid() && r.Aligned() && pout0 <= pout <= out.Length
    ensures r.Pos() >= old(r.Pos()) && r.Limit() == old(r.Limit())
    ensures old(Decodes(tlit[..], tdist[..], lit, dist) && BodyAt(r.Stream(), r.Pos(), lit, dist, ts)) ==>
      var total := Expand(old(out[..pout0]), ts);
      var reached := BodyLast(old(r.Pos()), lit, dist, ts) + 15 <= r.Limit();
      var narrow := NarrowTokens(old(out[..pout0]), ts, out.Length);
      && (ok ==> r.Pos() == BodyEnd(old(r.Pos()), lit, dist, ts) && total == Some(out[..pout]) && reached && narrow
                 && 15 <= 8 * r.pin - BodyLast(old(r.Pos()), lit, dist, ts) <= 46)
      && (!ok ==> !reached || !narrow || total.None? || |total.value| > out.Length)
  {
    hide Represents, Fits, BodyAt, BodyEnd, NextAt, SymbolAt, At, NarrowToken, U32;
    ghost var m, rest, narrow := r.Stream(), ts, NarrowTokens(out[..pout0], ts, out.Length);
    ghost var end, total := BodyEnd(r.Pos(), lit, dist, ts), Expand(out[..pout0], ts);
    ghost var carried := Decodes(tlit[..], tdist[..], lit, dist) && BodyAt(m, r.Pos(), lit, dist, ts);
    pout := pout0;
    while true
      invariant r.Valid() && r.Aligned() && pout0 <= pout <= out.Length
      invariant r.Pos() >= old(r.Pos()) && r.Limit() == old(r.Limit())
      invariant tlit[..] == old(tlit[..]) && tdist[..] == old(tdist[..])
      invariant carried ==> Progress(m, r.Pos(), lit, dist, out[..pout], rest, end, total)
      invariant carried ==> narrow == NarrowTokens(out[..pout], rest, out.Length)
      decreases 8 * |r.mem| - r.Pos()
    {
      if carried {
        BodyParts(m, r.Pos(), lit, dist, rest);
      }
      ghost var before := out[..pout];
      var status;
      status, pout := InflateStep(r, tlit, tdist, out, pout, lit, dist, NextOf(rest));
      if status == Failed {
        r.StarvedExactly();
        if carried && rest != [] && Unfit(before, rest[0], out.Length) {
          UnfitTotal(before, rest, out.Length);
        }
        return false, pout;
      }
      if status == EndOfBlock {
        return true, pout;
      }
      rest := if rest == [] then [] else rest[1..];
    }
  }
}
