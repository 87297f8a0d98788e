/** The DWARF section reader of dwarf.c and its LEB128 numbers (section 7.6 of DWARF Version 5). */
module Leb128 {
  import opened Bits

  const WORD: nat := 0x1_0000_0000_0000_0000

  // ----- the encoding -----

  /** s starts with a number: some byte of it has its top bit clear. */
  predicate Terminated(s: seq<byte>) {
    s != [] && (s[0] < 128 || Terminated(s[1..]))
  }

  /** The number of bytes of the number s starts with. */
  function LebLen(s: seq<byte>): (n: nat)
    requires Terminated(s)
    ensures 1 <= n <= |s| && s[n - 1] < 128 && forall k: nat :: k < n - 1 ==> s[k] >= 128
  {
    if s[0] < 128 then 1 else
      var n := 1 + LebLen(s[1..]);
      assert forall k: nat :: 0 < k < n - 1 ==> s[k] == s[1..][k - 1];
      n
  }

  function Group(b: byte): nat {
    b % 128
  }

  /** The first n groups of seven bits, the first the least significant. */
  function Groups(s: seq<byte>, n: nat): nat
    requires n <= |s|
  {
    if n == 0 then 0 else Groups(s, n - 1) + Shl(Group(s[n - 1]), 7 * (n - 1))
  }

  function UlebValue(s: seq<byte>): nat
    requires Terminated(s)
  {
    Groups(s, LebLen(s))
  }

  /** Bit 6 of the last byte is the sign. */
  function SlebValue(s: seq<byte>): int
    requires Terminated(s)
  {
    var n := LebLen(s);
    if s[n - 1] >= 64 then Groups(s, n) - Pow2(7 * n) else Groups(s, n)
  }

  lemma {:induction false} GroupsBound(s: seq<byte>, n: nat)
    requires n <= |s|
    ensures Groups(s, n) < Pow2(7 * n)
  {
    if n > 0 {
      GroupsBound(s, n - 1);
      ShlMono(Group(s[n - 1]), 127, 7 * (n - 1));
      ShlAdd(127, 1, 7 * (n - 1));
      assert Pow2(7) == 128;
      ShlPow2(7, 7 * (n - 1));
      ShlPow2(0, 7 * (n - 1));
    }
  }

  // ----- words -----

  lemma WordIsPow2()
    ensures Pow2(64) == WORD
  {
    Pow2Words();
    ShlPow2(32, 32);
    ShlIsTimes(0x1_0000_0000, 32);
  }

  /** Adding groups above p. */
  lemma LowAbove(p: nat, x: nat, k: nat, n: nat)
    requires p < Pow2(k)
    ensures k <= n ==> Low(p + Shl(x, k), n) == p + Low(Shl(x, k), n)
    ensures k >= n ==> Low(p + Shl(x, k), n) == Low(p, n)
  {
    Join(p, x, k);
    Join(0, x, k);
    hide Low, Shr, Shl;
    if k <= n {
      LowSplit(p + Shl(x, k), k, n - k);
      LowSplit(Shl(x, k), k, n - k);
    }
    if k >= n {
      LowLow(p + Shl(x, k), n, k);
    }
  }

  /** A word read as a signed number. */
  function ToSigned(x: nat): int {
    if x >= WORD / 2 then x - WORD else x
  }

  /** x wrapped to 64 bits and read as a signed number. */
  function Wrap(x: int): int {
    ToSigned(x % WORD)
  }

  // ----- the reader -----

  /** A struct dwarf_buf: `left` bytes of a section from `pos` on. */
  class DwarfBuf {
    const bytes: seq<byte>
    var pos: nat
    var left: nat
    var reportedUnderflow: bool

    ghost predicate Valid()
      reads this
    {
      pos + left <= |bytes|
    }

    /** The bytes not yet read. */
    ghost function Rest(): (s: seq<byte>)
      requires Valid()
      reads this
      ensures |s| == left
    {
      bytes[pos..pos + left]
    }

    constructor (bytes: seq<byte>, pos: nat, left: nat, reported: bool)
      requires pos + left <= |bytes|
      ensures Valid() && Rest() == bytes[pos..pos + left] && reportedUnderflow == reported
      ensures this.bytes == bytes && this.pos == pos && this.left == left
    {
      this.bytes := bytes;
      this.pos := pos;
      this.left := left;
      this.reportedUnderflow := reported;
    }

    /** require. */
    method Require(count: nat) returns (ok: bool)
      requires Valid()
      modifies `reportedUnderflow
      ensures ok <==> left >= count
      ensures reportedUnderflow == (old(reportedUnderflow) || !ok)
    {
      if left >= count {
        return true;
      }
      if !reportedUnderflow {
        reportedUnderflow := true;
      }
      return false;
    }

    /** advance. */
    method Advance(count: nat) returns (ok: bool)
      requires Valid()
      modifies this
      ensures Valid() && (ok <==> old(left) >= count)
      ensures Rest() == if ok then old(Rest())[count..] else old(Rest())
      ensures pos == if ok then old(pos) + count else old(pos)
      ensures reportedUnderflow == (old(reportedUnderflow) || !ok)
    {
      ok := Require(count);
      if ok {
        pos := pos + count;
        left := left - count;
      }
    }

    /** read_byte. */
    method ReadByte() returns (b: byte)
      requires Valid()
      modifies this
      ensures Valid()
      ensures if old(left) > 0 then b == old(Rest())[0] && Rest() == old(Rest())[1..] && reportedUnderflow == old(reportedUnderflow)
              else b == 0 && Rest() == [] && reportedUnderflow
    {
      var p := pos;
      var ok := Advance(1);
      if !ok {
        return 0;
      }
      return bytes[p];
    }
  }

  /** How a reader of one number leaves the buffer: past the number, or at the end with an underflow
      reported. */
  ghost predicate Consumed(s: seq<byte>, underflow: bool, s': seq<byte>, underflow': bool) {
    if Terminated(s) then s' == s[LebLen(s)..] && underflow' == underflow
    else s' == [] && underflow'
  }

  /** What the loop of the readers has gathered after n bytes.  The shift is a 32-bit number. */
  function Gathered(s: seq<byte>, n: nat): nat
    requires n <= |s|
  {
    if n == 0 then 0
    else
      var val, shift := Gathered(s, n - 1), U32(7 * (n - 1));
      if shift < 64 then Or(val, Low(Shl(Group(s[n - 1]), shift), 64)) else val
  }

  /** i bytes of s0 have been read; the last of them was b. */
  ghost predicate Reading(s0: seq<byte>, i: nat, b: byte, val: nat) {
    && i <= |s0| && (forall k: nat :: k + 1 < i ==> s0[k] >= 128)
    && (if i == 0 then b >= 128 else b == s0[i - 1])
    && val == Gathered(s0, i)
  }

  lemma ReadingStep(s0: seq<byte>, i: nat, b: byte, val: nat)
    requires Reading(s0, i, b, val) && b >= 128 && i < |s0|
    ensures var shift := U32(7 * i);
      Reading(s0, i + 1, s0[i], if shift < 64 then Or(val, Low(Shl(Group(s0[i]), shift), 64)) else val)
  {
    hide Low, Shl, Group, Or, U32;
  }

  /** The longest number during which the shift does not wrap has this many bytes. */
  const MAX_BYTES: nat := 613566757

  /** Up to there the loop gathers the groups, modulo 2^64. */
  lemma {:induction false} GatheredExact(s: seq<byte>, n: nat)
    requires n <= |s| && n <= MAX_BYTES
    ensures Gathered(s, n) == Low(Groups(s, n), 64)
    decreases n
  {
    hide Or, Shl, Group, Pow2, Low;
    if n > 0 {
      var i := n - 1;
      GatheredExact(s, i);
      GroupsBound(s, i);
      GatheredGroup(Groups(s, i), Group(s[i]), i);
      NoWrap(i);
    } else {
      LowOfZero();
    }
  }

  lemma NoWrap(i: nat)
    requires i < MAX_BYTES
    ensures U32(7 * i) == 7 * i
  {
  }

  lemma LowOfZero()
    ensures Low(0, 64) == 0
  {
    LowSmall(0, 64);
  }

  lemma GatheredGroup(p: nat, g: nat, i: nat)
    requires p < Pow2(7 * i)
    ensures 7 * i < 64 ==> Or(Low(p, 64), Low(Shl(g, 7 * i), 64)) == Low(p + Shl(g, 7 * i), 64)
    ensures 7 * i >= 64 ==> Low(p, 64) == Low(p + Shl(g, 7 * i), 64)
  {
    hide Or, Low, Shl, Pow2;
    LowAbove(p, g, 7 * i, 64);
    if 7 * i < 64 {
      Pow2Mono(7 * i, 64);
      LowSmall(p, 64);
      LowLow(Shl(g, 7 * i), 7 * i, 64);
      NothingBelow(g, 7 * i);
      OrDisjoint(p, Low(Shl(g, 7 * i), 64), 7 * i);
    }
  }

  lemma NothingBelow(g: nat, k: nat)
    ensures Low(Shl(g, k), k) == 0
  {
    Join(0, g, k);
  }

  /** What read_uleb128 returns for a number that ends. */
  function UlebWord(s: seq<byte>): nat
    requires Terminated(s)
  {
    Gathered(s, LebLen(s))
  }

  /** What read_sleb128 returns. */
  function SlebWord(s: seq<byte>): int
    requires Terminated(s)
  {
    var val, shift := UlebWord(s), U32(7 * LebLen(s));
    if shift < 64 then SignFits(shift); ToSigned(if s[LebLen(s) - 1] >= 64 then Or(val, WORD - Pow2(shift)) else val)
    else ToSigned(val)
  }

  lemma SignFits(shift: nat)
    requires shift < 64
    ensures Pow2(shift) <= WORD
  {
    WordIsPow2();
    Pow2Mono(shift, 64);
  }

  /** That is the number modulo 2^64, as long as the shift does not wrap. */
  lemma UlebWordExact(s: seq<byte>)
    requires Terminated(s) && LebLen(s) <= MAX_BYTES
    ensures UlebWord(s) == Low(UlebValue(s), 64)
  {
    GatheredExact(s, LebLen(s));
  }

  lemma SlebWordExact(s: seq<byte>)
    requires Terminated(s) && LebLen(s) < MAX_BYTES
    ensures SlebWord(s) == Wrap(SlebValue(s))
  {
    hide Low, Groups, Shl, Terminated, Pow2, Or, ToSigned;
    var n := LebLen(s);
    UlebWordExact(s);
    GroupsBound(s, n);
    SignExtends(UlebValue(s), n, s[n - 1] >= 64);
    if 7 * n < 64 {
      SignBits(UlebValue(s), 7 * n);
    }
  }

  /** The sign bits are above the value. */
  lemma SignBits(g: nat, k: nat)
    requires g < Pow2(k) && k < 64
    ensures Pow2(k) <= WORD && Or(g, WORD - Pow2(k)) == g + (WORD - Pow2(k))
  {
    hide Or, Low, Shl;
    WordIsPow2();
    Pow2Mono(k, 64);
    var ones: nat := Pow2(64 - k) - 1;
    ShlPow2(0, k);
    ShlPow2(64 - k, k);
    ShlAdd(ones, 1, k);
    assert Pow2(0) == 1;
    NothingBelow(ones, k);
    OrDisjoint(g, Shl(ones, k), k);
  }

  /** A longer number is not read right: here 613566757 empty groups are followed by a one, far above
      bit 64; the shift has wrapped to 3. */
  lemma ShiftWraps(s: seq<byte>)
    requires |s| == MAX_BYTES + 1 && s[MAX_BYTES] == 1 && forall k: nat :: k < MAX_BYTES ==> s[k] == 128
    ensures Terminated(s) && UlebWord(s) == 8 && Low(UlebValue(s), 64) == 0
  {
    LengthIs(s, MAX_BYTES + 1);
    EmptyGroups(s, MAX_BYTES);
    GatheredExact(s, MAX_BYTES);
    LowSmall(0, 64);
    NothingBelow(1, 7 * MAX_BYTES);
    LowLow(Shl(1, 7 * MAX_BYTES), 64, 7 * MAX_BYTES);
    WrappedShift(s, MAX_BYTES);
  }

  lemma WrappedShift(s: seq<byte>, i: nat)
    requires i == MAX_BYTES < |s| && s[i] == 1 && Groups(s, i) == 0 && Gathered(s, i) == 0
    ensures Gathered(s, i + 1) == 8 && Groups(s, i + 1) == Shl(1, 7 * i)
  {
    hide Low, Shl, Groups, Pow2;
    GroupsNext(s, i);
    assert U32(7 * i) == 3;
    ThreeBits();
    ByteFits(8);
  }

  lemma ThreeBits()
    ensures Shl(Group(1), 3) == 8
  {
    assert Shl(1, 3) == 8;
  }

  lemma ByteFits(x: byte)
    ensures Low(x, 64) == x
  {
    assert Pow2(8) == 256;
    hide Low, Pow2;
    Pow2Mono(8, 64);
    LowSmall(x, 64);
  }

  lemma {:induction false} EmptyGroups(s: seq<byte>, n: nat)
    requires n <= |s| && forall k: nat :: k < n ==> s[k] == 128
    ensures Groups(s, n) == 0
  {
    if n > 0 {
      EmptyGroups(s, n - 1);
      ShlIsTimes(0, 7 * (n - 1));
    }
  }

  lemma GroupsNext(s: seq<byte>, n: nat)
    requires n < |s|
    ensures Groups(s, n + 1) == Groups(s, n) + Shl(Group(s[n]), 7 * n)
  {
  }

  /** The end of a number is found where LebLen says. */
  lemma {:induction false} LengthIs(s: seq<byte>, n: nat)
    requires 0 < n <= |s| && s[n - 1] < 128 && forall k: nat :: k + 1 < n ==> s[k] >= 128
    ensures Terminated(s) && LebLen(s) == n
    decreases n
  {
    if n > 1 {
      forall k: nat | k + 1 < n - 1 ensures s[1..][k] >= 128 {
        var m := k + 1;
        assert s[1..][k] == s[m];
      }
      LengthIs(s[1..], n - 1);
    }
  }

  lemma {:induction false} NotTerminated(s: seq<byte>)
    requires forall k: nat :: k < |s| ==> s[k] >= 128
    ensures !Terminated(s)
    decreases |s|
  {
    if s != [] {
      NotTerminated(s[1..]);
    }
  }

  lemma ShiftNext(i: nat)
    ensures U32(U32(7 * i) + 7) == U32(7 * (i + 1)) && U32(0) == 0
  {
    var q, r := 7 * i / 0x1_0000_0000, 7 * i % 0x1_0000_0000;
    assert 7 * (i + 1) == 0x1_0000_0000 * q + (r + 7);
    DivModUnique(7 * (i + 1), 0x1_0000_0000, q + (r + 7) / 0x1_0000_0000, (r + 7) % 0x1_0000_0000);
  }

  /** A byte of the number, if there is one. */
  method TakeByte(buf: DwarfBuf, ghost s0: seq<byte>, ghost i: nat) returns (ok: bool, b: byte)
    requires buf.Valid() && i <= |s0| && buf.Rest() == s0[i..]
    modifies buf
    ensures buf.Valid() && (ok <==> i < |s0|)
    ensures ok ==> b == s0[i] && buf.Rest() == s0[i + 1..] && buf.reportedUnderflow == old(buf.reportedUnderflow)
    ensures !ok ==> buf.Rest() == [] && buf.reportedUnderflow
  {
    var p := buf.pos;
    ok := buf.Advance(1);
    b := if ok then buf.bytes[p] else 0;
    if ok {
      assert buf.Rest() == s0[i..][1..] == s0[i + 1..];
    }
  }

  /** All bytes have been read, and none of them was the last. */
  lemma ReadingEnds(s0: seq<byte>, b: byte, val: nat)
    requires Reading(s0, |s0|, b, val) && b >= 128
    ensures !Terminated(s0)
  {
    NotTerminated(s0);
  }

  lemma ReadingDone(s0: seq<byte>, i: nat, b: byte, val: nat)
    requires Reading(s0, i, b, val) && b < 128
    ensures Terminated(s0) && LebLen(s0) == i && val == UlebWord(s0) && i > 0 && b == s0[i - 1]
  {
    LengthIs(s0, i);
  }

  /** The loop that the two readers share. */
  method ReadGroups(buf: DwarfBuf, ghost s0: seq<byte>) returns (ok: bool, val: nat, shift: nat, b: byte)
    requires buf.Valid() && s0 == buf.Rest()
    modifies buf
    ensures buf.Valid() && Consumed(s0, old(buf.reportedUnderflow), buf.Rest(), buf.reportedUnderflow)
    ensures ok <==> Terminated(s0)
    ensures ok ==> val == UlebWord(s0) && shift == U32(7 * LebLen(s0)) && b == s0[LebLen(s0) - 1]
  {
    hide Low, Reading, Shl, Terminated, LebLen, Group, Or, U32, UlebWord;
    val, shift, b := 0, 0, 128;
    ghost var i: nat := 0;
    ReadingStart(s0);
    ShiftNext(0);
    while b >= 128
      invariant buf.Valid() && i <= |s0| && buf.Rest() == s0[i..]
      invariant Reading(s0, i, b, val) && shift == U32(7 * i)
      invariant buf.reportedUnderflow == old(buf.reportedUnderflow)
      decreases |s0| - i, b
    {
      ghost var last := b;
      ok, b := TakeByte(buf, s0, i);
      if !ok {
        ReadingEnds(s0, last, val);
        return;
      }
      ReadingStep(s0, i, last, val);
      if shift < 64 {
        val := Or(val, Low(Shl(Group(b), shift), 64));
      }
      ShiftNext(i);
      shift := U32(shift + 7);
      i := i + 1;
    }
    ReadingDone(s0, i, b, val);
    ok := true;
  }

  /** read_uleb128: zero for a number that does not end; otherwise its value, modulo 2^64, if it has at
      most MAX_BYTES bytes. */
  method ReadUleb128(buf: DwarfBuf, ghost s0: seq<byte>) returns (ret: nat)
    requires buf.Valid() && s0 == buf.Rest()
    modifies buf
    ensures buf.Valid() && Consumed(s0, old(buf.reportedUnderflow), buf.Rest(), buf.reportedUnderflow)
    ensures ret == if Terminated(s0) then UlebWord(s0) else 0
    ensures Terminated(s0) && LebLen(s0) <= MAX_BYTES ==> ret == Low(UlebValue(s0), 64)
  {
    if Terminated(s0) && LebLen(s0) <= MAX_BYTES {
      UlebWordExact(s0);
    }
    var ok, val, _, _ := ReadGroups(buf, s0);
    ret := if ok then val else 0;
  }

  lemma ReadingStart(s0: seq<byte>)
    ensures Reading(s0, 0, 128, 0)
  {
    LowSmall(0, 64);
  }

  /** What the sign extension adds to a word. */
  lemma SignExtends(g: nat, n: nat, negative: bool)
    requires n > 0 && g < Pow2(7 * n)
    ensures 7 * n < 64 ==> Low(g, 64) == g && Pow2(7 * n) <= WORD
    ensures ToSigned(if negative && 7 * n < 64 then Low(g, 64) + (WORD - Pow2(7 * n)) else Low(g, 64))
         == Wrap(if negative then g - Pow2(7 * n) else g)
  {
    WordIsPow2();
    if 7 * n < 64 {
      Pow2Mono(7 * n, 64);
      LowSmall(g, 64);
      hide Pow2, Low;
      WrapSmall(if negative then g - Pow2(7 * n) else g);
    } else {
      var k := 7 * n - 64;
      ShiftMeaning(g, 64);
      ShlPow2(64, k);
      ShlIsTimes(WORD, k);
      hide Pow2, Low;
      ModMultiple(g, Pow2(k));
    }
  }

  lemma WrapSmall(x: int)
    requires 0 <= x + WORD && x < WORD
    ensures x % WORD == if x < 0 then x + WORD else x
  {
  }

  lemma ModMultiple(g: nat, k: nat)
    ensures (g - k * WORD) % WORD == g % WORD
  {
    DivModUnique(g - k * WORD, WORD, g / WORD - k, g % WORD);
  }

  /** read_sleb128: likewise for signed numbers of fewer than MAX_BYTES bytes. */
  method ReadSleb128(buf: DwarfBuf, ghost s0: seq<byte>) returns (r: int)
    requires buf.Valid() && s0 == buf.Rest()
    modifies buf
    ensures buf.Valid() && Consumed(s0, old(buf.reportedUnderflow), buf.Rest(), buf.reportedUnderflow)
    ensures r == if Terminated(s0) then SlebWord(s0) else 0
    ensures Terminated(s0) && LebLen(s0) < MAX_BYTES ==> r == Wrap(SlebValue(s0))
  {
    hide Low, Gathered, Shl, Terminated, Pow2, Or, U32;
    if Terminated(s0) && LebLen(s0) < MAX_BYTES {
      SlebWordExact(s0);
    }
    var ok, val, shift, b := ReadGroups(buf, s0);
    if !ok {
      return 0;
    }
    if b >= 64 && shift < 64 {
      SignFits(shift);
      val := Or(val, WORD - Pow2(shift));
    }
    r := ToSigned(val);
  }

  /** leb128_len: the number of bytes the readers consume. */
  method Leb128Len(p: seq<byte>) returns (ret: nat)
    requires Terminated(p)
    ensures ret == LebLen(p)
  {
    ret := 1;
    ghost var n := LebLen(p);
    while p[ret - 1] >= 128
      invariant 1 <= ret <= n
      decreases n - ret
    {
      ret := ret + 1;
    }
  }

  // ----- the encoders -----

  /** The encoders of section 7.6. */
  function EncodeUleb(v: nat): seq<byte> {
    if v < 128 then [v] else [128 + v % 128] + EncodeUleb(v / 128)
  }

  /** The rest is all sign bits, and so is bit 6. */
  predicate Ends(v: int) {
    (v / 128 == 0 && v % 128 < 64) || (v / 128 == -1 && v % 128 >= 64)
  }

  function EncodeSleb(v: int): seq<byte>
    decreases if v < 0 then -v else v
  {
    if Ends(v) then [v % 128] else [128 + v % 128] + EncodeSleb(v / 128)
  }

  lemma {:induction false} GroupsCons(x: byte, t: seq<byte>, n: nat)
    requires n <= |t|
    ensures Groups([x] + t, n + 1) == Group(x) + 128 * Groups(t, n)
  {
    if n > 0 {
      GroupsCons(x, t, n - 1);
      assert ([x] + t)[n] == t[n - 1];
      ShlShl(Group(t[n - 1]), 7 * (n - 1), 7);
      ShlIsTimes(Shl(Group(t[n - 1]), 7 * (n - 1)), 7);
      assert Pow2(7) == 128;
    } else {
      assert Groups([x] + t, 1) == Groups([x] + t, 0) + Shl(Group(x), 0);
    }
  }

  /** Number t with one more group below it. */
  lemma ContinueNumber(b: byte, t: seq<byte>)
    requires b < 128 && Terminated(t)
    ensures Terminated([128 + b] + t) && LebLen([128 + b] + t) == 1 + LebLen(t)
    ensures UlebValue([128 + b] + t) == b + 128 * UlebValue(t)
  {
    var x: byte := 128 + b;
    ContinueLength(x, t);
    hide Terminated, LebLen, Groups, Group;
    GroupsCons(x, t, LebLen(t));
    ContinueGroup(b);
  }

  lemma ContinueSigned(b: byte, t: seq<byte>)
    requires b < 128 && Terminated(t)
    ensures Terminated([128 + b] + t) && SlebValue([128 + b] + t) == b + 128 * SlebValue(t)
  {
    var x: byte := 128 + b;
    var n := LebLen(t);
    ContinueLength(x, t);
    hide Terminated, LebLen, Groups, Group, Pow2;
    GroupsCons(x, t, n);
    ContinueGroup(b);
    assert ([x] + t)[n] == t[n - 1];
    SevenMore(n);
  }

  lemma ContinueLength(x: byte, t: seq<byte>)
    requires x >= 128 && Terminated(t)
    ensures Terminated([x] + t) && LebLen([x] + t) == 1 + LebLen(t)
  {
    assert ([x] + t)[1..] == t;
  }

  lemma ContinueGroup(b: byte)
    requires b < 128
    ensures Group(128 + b) == b
  {
  }

  lemma SevenMore(n: nat)
    ensures Pow2(7 * (n + 1)) == 128 * Pow2(7 * n)
  {
    ShlPow2(7 * n, 7);
    ShlIsTimes(Pow2(7 * n), 7);
    assert Pow2(7) == 128;
  }

  lemma LastByte(x: byte, rest: seq<byte>)
    requires x < 128
    ensures Terminated([x] + rest) && LebLen([x] + rest) == 1
    ensures UlebValue([x] + rest) == x && SlebValue([x] + rest) == if x >= 64 then x - 128 else x
  {
    GroupsCons(x, rest, 0);
    assert Pow2(7) == 128;
  }

  /** Decoding an encoded number, whatever follows it. */
  lemma {:induction false} UlebRoundTrip(v: nat, rest: seq<byte>)
    ensures var s := EncodeUleb(v) + rest; Terminated(s) && LebLen(s) == |EncodeUleb(v)| && UlebValue(s) == v
    decreases v
  {
    hide Terminated, LebLen, UlebValue;
    if v < 128 {
      LastByte(v, rest);
    } else {
      var b: byte := v % 128;
      UlebRoundTrip(v / 128, rest);
      ContinueNumber(b, EncodeUleb(v / 128) + rest);
      assert EncodeUleb(v) + rest == [128 + b] + (EncodeUleb(v / 128) + rest);
    }
  }

  lemma {:induction false} SlebRoundTrip(v: int, rest: seq<byte>)
    ensures var s := EncodeSleb(v) + rest; Terminated(s) && LebLen(s) == |EncodeSleb(v)| && SlebValue(s) == v
    decreases if v < 0 then -v else v
  {
    hide Terminated, LebLen, SlebValue, EncodeSleb, Group;
    var b: byte, v' := v % 128, v / 128;
    EncodeStep(v);
    if Ends(v) {
      LastByte(b, rest);
    } else {
      SlebRoundTrip(v', rest);
      ContinueLength(128 + b, EncodeSleb(v') + rest);
      ContinueSigned(b, EncodeSleb(v') + rest);
      assert ([128 + b] + EncodeSleb(v')) + rest == [128 + b] + (EncodeSleb(v') + rest);
    }
  }

  lemma EncodeStep(v: int)
    ensures EncodeSleb(v) == if Ends(v) then [v % 128] else [128 + v % 128] + EncodeSleb(v / 128)
    ensures Ends(v) ==> v == if v % 128 >= 64 then v % 128 - 128 else v % 128
    ensures !Ends(v) ==> (if v / 128 < 0 then -(v / 128) else v / 128) < (if v < 0 then -v else v)
  {
  }

  /** A number below 2^(7n) takes at most n bytes. */
  lemma {:induction false} UlebShort(v: nat, n: nat)
    requires v < Pow2(7 * n) && n > 0
    ensures |EncodeUleb(v)| <= n
    decreases n
  {
    assert Pow2(0) == 1;
    SevenMore(n - 1);
    if v >= 128 && n > 1 {
      UlebShort(v / 128, n - 1);
    }
  }

  lemma {:induction false} SlebShort(v: int, n: nat)
    requires n > 0 && 0 <= 2 * v + Pow2(7 * n) && 2 * v < Pow2(7 * n)
    ensures |EncodeSleb(v)| <= n
    decreases n
  {
    hide EncodeSleb;
    EncodeStep(v);
    EndsAt(v);
    assert Pow2(0) == 1;
    SevenMore(n - 1);
    hide Pow2, Ends;
    if !Ends(v) {
      if n > 1 {
        SevenMore(n - 2);
        GroupLess(v, Pow2(7 * (n - 2)));
        SlebShort(v / 128, n - 1);
      }
    }
  }

  /** One byte is enough for these. */
  lemma EndsAt(v: int)
    ensures Ends(v) <==> -64 <= v < 64
  {
  }

  lemma GroupLess(v: int, p: nat)
    requires -64 * (128 * p) <= v < 64 * (128 * p)
    ensures -64 * p <= v / 128 < 64 * p
  {
  }

  /** What read_uleb128 and read_sleb128 return for an encoded 64-bit number is the number. */
  lemma WordsRoundTrip(v: int, rest: seq<byte>)
    ensures 0 <= v < WORD ==>
      var s := EncodeUleb(v) + rest; Terminated(s) && UlebWord(s) == v && s[LebLen(s)..] == rest
    ensures 0 <= v + WORD / 2 && v < WORD / 2 ==>
      var s := EncodeSleb(v) + rest; Terminated(s) && SlebWord(s) == v && s[LebLen(s)..] == rest
  {
    hide UlebWord, SlebWord, Pow2;
    WordIsPow2();
    Pow2Mono(64, 70);
    if 0 <= v < WORD {
      UlebRoundTrip(v, rest);
      UlebShort(v, 10);
      UlebWordExact(EncodeUleb(v) + rest);
      LowSmall(v, 64);
    }
    if 0 <= v + WORD / 2 && v < WORD / 2 {
      SlebRoundTrip(v, rest);
      SlebShort(v, 10);
      SlebWordExact(EncodeSleb(v) + rest);
      WrapSmall(v);
    }
  }
}
