/** elf_zlib_verify_checksum: Adler-32 with the modulo put off for 5552 bytes. */
module Adler32 {
  import opened Bits

  const BASE: int := 65521
  const NMAX: nat := 5552

  newtype uint32 = x: int | 0 <= x < 0x1_0000_0000

  /** Section 8.2 of RFC 1950: both sums of the first n bytes, reduced after every byte. */
  function Sums(data: seq<byte>, n: nat): (nat, nat)
    requires n <= |data|
  {
    if n == 0 then (1, 0)
    else
      var (a, b) := Sums(data, n - 1);
      var a' := (a + data[n - 1]) % BASE;
      (a', (b + a') % BASE)
  }

  function Checksum(data: seq<byte>): nat {
    var (a, b) := Sums(data, |data|);
    b * 0x1_0000 + a
  }

  function BigEndian(bytes: seq<byte>, n: nat): nat
    requires n <= |bytes|
  {
    if n == 0 then 0 else 256 * BigEndian(bytes, n - 1) + bytes[n - 1]
  }

  // ----- the modulus -----

  /** None of the eight numbers from d on divides n. */
  predicate NoDivisor(n: nat, d: nat)
    requires 0 < d
  {
    && n % d != 0 && n % (d + 1) != 0 && n % (d + 2) != 0 && n % (d + 3) != 0
    && n % (d + 4) != 0 && n % (d + 5) != 0 && n % (d + 6) != 0 && n % (d + 7) != 0
  }

  lemma NoDivisorMeans(n: nat, d: nat, e: nat)
    requires 0 < d <= e < d + 8 && NoDivisor(n, d)
    ensures n % e != 0
  {
    match e - d {
      case 0 => assert n % d != 0;
      case 1 => assert n % (d + 1) != 0;
      case 2 => assert n % (d + 2) != 0;
      case 3 => assert n % (d + 3) != 0;
      case 4 => assert n % (d + 4) != 0;
      case 5 => assert n % (d + 5) != 0;
      case 6 => assert n % (d + 6) != 0;
      case _ => assert n % (d + 7) != 0;
    }
  }

  lemma TrialDivision1(k: nat)
    requires 0 <= k < 8
    ensures NoDivisor(65521, 8 * k + 2)
  {
    match k {
      case 0 => assert NoDivisor(65521, 2);
      case 1 => assert NoDivisor(65521, 10);
      case 2 => assert NoDivisor(65521, 18);
      case 3 => assert NoDivisor(65521, 26);
      case 4 => assert NoDivisor(65521, 34);
      case 5 => assert NoDivisor(65521, 42);
      case 6 => assert NoDivisor(65521, 50);
      case 7 => assert NoDivisor(65521, 58);
    }
  }

  lemma TrialDivision2(k: nat)
    requires 8 <= k < 16
    ensures NoDivisor(65521, 8 * k + 2)
  {
    match k {
      case 8 => assert NoDivisor(65521, 66);
      case 9 => assert NoDivisor(65521, 74);
      case 10 => assert NoDivisor(65521, 82);
      case 11 => assert NoDivisor(65521, 90);
      case 12 => assert NoDivisor(65521, 98);
      case 13 => assert NoDivisor(65521, 106);
      case 14 => assert NoDivisor(65521, 114);
      case 15 => assert NoDivisor(65521, 122);
    }
  }

  lemma TrialDivision3(k: nat)
    requires 16 <= k < 24
    ensures NoDivisor(65521, 8 * k + 2)
  {
    match k {
      case 16 => assert NoDivisor(65521, 130);
      case 17 => assert NoDivisor(65521, 138);
      case 18 => assert NoDivisor(65521, 146);
      case 19 => assert NoDivisor(65521, 154);
      case 20 => assert NoDivisor(65521, 162);
      case 21 => assert NoDivisor(65521, 170);
      case 22 => assert NoDivisor(65521, 178);
      case 23 => assert NoDivisor(65521, 186);
    }
  }

  lemma TrialDivision4(k: nat)
    requires 24 <= k < 32
    ensures NoDivisor(65521, 8 * k + 2)
  {
    match k {
      case 24 => assert NoDivisor(65521, 194);
      case 25 => assert NoDivisor(65521, 202);
      case 26 => assert NoDivisor(65521, 210);
      case 27 => assert NoDivisor(65521, 218);
      case 28 => assert NoDivisor(65521, 226);
      case 29 => assert NoDivisor(65521, 234);
      case 30 => assert NoDivisor(65521, 242);
      case 31 => assert NoDivisor(65521, 250);
    }
  }

  /** Trial division by 2 to 257. */
  lemma TrialDivision(k: nat)
    requires k < 32
    ensures NoDivisor(65521, 8 * k + 2)
  {
    hide NoDivisor;
    if k < 8 {
      TrialDivision1(k);
    } else if k < 16 {
      TrialDivision2(k);
    } else if k < 24 {
      TrialDivision3(k);
    } else {
      TrialDivision4(k);
    }
  }

  /** The modulus is a prime. */
  lemma BaseIsPrime(a: nat, b: nat)
    requires a * b == BASE
    ensures a == 1 || b == 1
  {
    if 2 <= a <= b {
      SmallFactor(a, b);
    } else if 2 <= b < a {
      SmallFactor(b, a);
    }
  }

  lemma SmallFactor(a: nat, b: nat)
    requires 2 <= a <= b
    ensures a * b != 65521
  {
    if a >= 256 {
      MulMono(a, 256, b);
      MulMono(256, 256, a);
    } else {
      TrialDivision((a - 2) / 8);
      NoDivisorMeans(65521, 8 * ((a - 2) / 8) + 2, a);
      DivModUnique(a * b, a, b, 0);
    }
  }

  /** No larger number below 2^16 is one. */
  lemma BaseIsLargest(n: nat) returns (a: nat, b: nat)
    requires BASE < n < 0x1_0000
    ensures a >= 2 && b >= 2 && a * b == n
  {
    a := match n - BASE
      case 2 => 3
      case 4 => 5
      case 6 => 7
      case 8 => 3
      case 10 => 19
      case 12 => 13
      case 14 => 3
      case _ => 2;
    b := n / a;
  }

  // ----- sums that are reduced late -----

  /** s1 and s2 are the sums of the first p bytes up to multiples of BASE, and k bytes have been
      added since the last reduction. */
  ghost predicate Deferred(data: seq<byte>, p: nat, k: nat, s1: uint32, s2: uint32) {
    && p <= |data| && k <= NMAX
    && s1 as int % BASE == Sums(data, p).0 && s2 as int % BASE == Sums(data, p).1
    && s1 as int <= BASE - 1 + 255 * k
    && s2 as int <= (BASE - 1) * (k + 1) + Triangle(k)
  }

  /** 255 * (1 + 2 + ... + k) */
  ghost function Triangle(k: nat): nat {
    if k == 0 then 0 else Triangle(k - 1) + 255 * k
  }

  lemma {:induction false} TriangleMono(k: nat, n: nat)
    requires k <= n
    ensures Triangle(k) <= Triangle(n)
    decreases n
  {
    if k < n {
      TriangleMono(k, n - 1);
    }
  }

  lemma {:induction false} TriangleClosed(k: nat)
    ensures 2 * Triangle(k) == 255 * k * (k + 1)
  {
    if k > 0 {
      TriangleClosed(k - 1);
    }
  }

  /** The largest possible second sum before a reduction fits in 32 bits. */
  lemma NoOverflow(k: nat)
    requires k <= NMAX
    ensures (BASE - 1) * (k + 1) + Triangle(k) < 0x1_0000_0000
  {
    TriangleMono(k, NMAX);
    TriangleClosed(NMAX);
  }

  /** One byte of the unrolled loop. */
  method AddByte(data: seq<byte>, p: nat, ghost k: nat, s1: uint32, s2: uint32) returns (t1: uint32, t2: uint32)
    requires Deferred(data, p, k, s1, s2) && p < |data| && k < NMAX
    ensures Deferred(data, p + 1, k + 1, t1, t2)
  {
    NoOverflow(k + 1);
    var b: int := data[p];
    t1 := s1 + b as uint32;
    t2 := s2 + t1;
    ModSum(s1 as int, b);
    ModSum(s2 as int, t1 as int);
    ModSum(Sums(data, p).1, t1 as int);
  }

  lemma ModSum(x: int, y: int)
    ensures (x + y) % BASE == (x % BASE + y) % BASE == (x + y % BASE) % BASE
  {
    var a, b := x % BASE + y, x + y % BASE;
    DivModUnique(x + y, BASE, x / BASE + a / BASE, a % BASE);
    DivModUnique(x + y, BASE, y / BASE + b / BASE, b % BASE);
  }

  /** Sixteen bytes, which the C code adds without a loop. */
  method AddSixteen(data: seq<byte>, p: nat, ghost k: nat, s1: uint32, s2: uint32) returns (t1: uint32, t2: uint32)
    requires Deferred(data, p, k, s1, s2) && p + 16 <= |data| && k + 16 <= NMAX
    ensures Deferred(data, p + 16, k + 16, t1, t2)
  {
    t1, t2 := s1, s2;
    for j := 0 to 16
      invariant Deferred(data, p + j, k + j, t1, t2)
    {
      t1, t2 := AddByte(data, p + j, k + j, t1, t2);
    }
  }

  method Reduce(data: seq<byte>, p: nat, ghost k: nat, s1: uint32, s2: uint32) returns (t1: uint32, t2: uint32)
    requires Deferred(data, p, k, s1, s2)
    ensures Deferred(data, p, 0, t1, t2) && t1 as int == Sums(data, p).0 && t2 as int == Sums(data, p).1
  {
    t1 := s1 % 65521;
    t2 := s2 % 65521;
  }

  /** The 5552-byte blocks; fewer than that many bytes are left. */
  method AddBlocks(data: seq<byte>) returns (p: nat, s1: uint32, s2: uint32)
    ensures Deferred(data, p, 0, s1, s2) && |data| - p < NMAX
  {
    p, s1, s2 := 0, 1, 0;
    var hsz := |data|;
    while hsz >= NMAX
      invariant hsz == |data| - p && Deferred(data, p, 0, s1, s2)
    {
      ghost var p0 := p;
      var i := 0;
      while i < NMAX
        invariant i <= NMAX && i % 16 == 0 && p == p0 + i && p0 + NMAX <= |data|
        invariant Deferred(data, p, i, s1, s2)
      {
        s1, s2 := AddSixteen(data, p, i, s1, s2);
        p := p + 16;
        i := i + 16;
      }
      hsz := hsz - NMAX;
      s1, s2 := Reduce(data, p, NMAX, s1, s2);
    }
  }

  /** The check bytes are accepted exactly when they are the Adler-32 checksum of the data. */
  method VerifyChecksum(checkbytes: seq<byte>, data: seq<byte>) returns (ok: bool)
    requires |checkbytes| == 4
    ensures ok <==> BigEndian(checkbytes, 4) == Checksum(data)
  {
    var cksum: nat := 0;
    for i := 0 to 4
      invariant cksum == BigEndian(checkbytes, i)
    {
      cksum := 256 * cksum + checkbytes[i];
    }
    var p, s1, s2 := AddBlocks(data);
    ghost var k := 0;
    var hsz := |data| - p;
    while hsz >= 16
      invariant 0 <= hsz == |data| - p && k + hsz < NMAX
      invariant Deferred(data, p, k, s1, s2)
    {
      s1, s2 := AddSixteen(data, p, k, s1, s2);
      p, hsz, k := p + 16, hsz - 16, k + 16;
    }
    for i := 0 to hsz
      invariant p == |data| - hsz + i && Deferred(data, p, k + i, s1, s2)
    {
      s1, s2 := AddByte(data, p, k + i, s1, s2);
      p := p + 1;
    }
    s1, s2 := Reduce(data, p, k + hsz, s1, s2);
    ok := s2 as nat * 0x1_0000 + s1 as nat == cksum;
  }

  // ----- sums that wrap -----

  /** n bytes 0xff. */
  function Ones(n: nat): (data: seq<byte>)
    ensures |data| == n
  {
    seq(n, _ => 255)
  }

  lemma TriangleStep(n: nat)
    ensures Triangle(0) == 0 && (n > 0 ==> Triangle(n) == Triangle(n - 1) + 255 * n)
  {
  }

  /** Without the modulus the sums of n bytes 0xff are 1 + 255n and n + 255 * n(n + 1) / 2. */
  lemma {:induction false} OnesSums(data: seq<byte>, n: nat)
    requires n <= |data| && forall k: nat :: k < n ==> data[k] == 255
    ensures Sums(data, n) == ((1 + 255 * n) % BASE, (n + Triangle(n)) % BASE)
  {
    hide Triangle;
    TriangleStep(n);
    if n > 0 {
      OnesSums(data, n - 1);
      var a, b := 1 + 255 * (n - 1), n - 1 + Triangle(n - 1);
      ModSum(a, 255);
      ModSum(b, a + 255);
      ModSum(b % BASE, a + 255);
    }
  }

  /** The checksum of 300 bytes 0xff, for which both sums exceed the modulus. */
  lemma OnesChecksum()
    ensures Checksum(Ones(300)) == 0xb90f_2ae4
  {
    hide Sums, Triangle;
    OnesSums(Ones(300), 300);
    TriangleClosed(300);
    assert Triangle(300) == 11513250;
  }

  lemma LastDigit(x: nat, b: byte, y: nat, c: byte)
    ensures 256 * x + b == 256 * y + c <==> x == y && b == c
  {
  }

  lemma FourDigits(check: seq<byte>)
    requires |check| == 4
    ensures BigEndian(check, 4) == 0xb90f_2ae4 <==> check == [0xb9, 0x0f, 0x2a, 0xe4]
  {
    assert BigEndian(check, 1) == check[0];
    LastDigit(BigEndian(check, 3), check[3], 0xb9_0f2a, 0xe4);
    LastDigit(BigEndian(check, 2), check[2], 0xb90f, 0x2a);
    LastDigit(BigEndian(check, 1), check[1], 0xb9, 0x0f);
  }

  /** Of all check bytes just these four are accepted for it. */
  method VerifyOnes(check: seq<byte>) returns (ok: bool)
    requires |check| == 4
    ensures ok <==> check == [0xb9, 0x0f, 0x2a, 0xe4]
  {
    OnesChecksum();
    FourDigits(check);
    ok := VerifyChecksum(check, Ones(300));
  }
}
