/** The SHA-1 message digest as FIPS 180-4 defines it. */
module Sha1 {
  type Word = bv32
  type Octet = bv8

  /** The working variables, or a hash value. */
  datatype Registers = Registers(a: Word, b: Word, c: Word, d: Word, e: Word)

  /** The initial hash value (section 5.3.1). */
  const INITIAL := Registers(0x67452301, 0xefcdab89, 0x98badcfe, 0x10325476, 0xc3d2e1f0)

  /** ROTL (section 3.2). */
  function Rol(x: Word, n: bv6): Word
    requires 0 < n < 32
  {
    (x << n) | (x >> (32 - n))
  }

  function Up(x: Word, n: bv6): Word
    requires n < 32
  {
    x << n
  }

  function Down(x: Word, n: bv6): Word
    requires n < 32
  {
    x >> n
  }

  function BitAt(x: Word, k: bv6): Word
    requires k < 32
  {
    (x >> k) & 1
  }

  function Or(x: Word, y: Word): Word { x | y }

  lemma OrBits(x: Word, y: Word, k: bv6)
    requires k < 32
    ensures BitAt(y, k) == 0 ==> BitAt(Or(x, y), k) == BitAt(x, k)
    ensures BitAt(x, k) == 0 ==> BitAt(Or(x, y), k) == BitAt(y, k)
  {
  }

  lemma UpMovesBits(x: Word, n: bv6, k: bv6)
    requires n < 32 && k < 32
    ensures BitAt(Up(x, n), k) == if k >= n then BitAt(x, k - n) else 0
  {
  }

  lemma DownMovesBits(x: Word, n: bv6, k: bv6)
    requires n < 32 && k < 32
    ensures BitAt(Down(x, n), k) == if k + n < 32 then BitAt(x, k + n) else 0
  {
  }

  lemma RolByShifts(x: Word, n: bv6)
    requires 0 < n < 32
    ensures Rol(x, n) == Or(Up(x, n), Down(x, 32 - n))
  {
  }

  lemma BitsAfterRol(x: Word, n: bv6, k: bv6)
    requires 0 < n < 32 && k < 32
    ensures BitAt(Rol(x, n), k) == BitAt(x, if k >= n then k - n else k + (32 - n))
  {
    hide *;
    RolByShifts(x, n);
    UpMovesBits(x, n, k);
    DownMovesBits(x, 32 - n, k);
    OrBits(Up(x, n), Down(x, 32 - n), k);
  }

  /** It rotates to the left: bit k comes to place k + n, around the end of the word. */
  lemma RolMovesBits(x: Word, n: bv6, k: bv6)
    requires 0 < n < 32 && k < 32
    ensures var place := if k + n < 32 then k + n else k + n - 32;
            (Rol(x, n) >> place) & 1 == (x >> k) & 1
  {
    hide Rol;
    BitsAfterRol(x, n, if k + n < 32 then k + n else k + n - 32);
  }

  /** The functions of section 4.1.1. */
  function Ch(x: Word, y: Word, z: Word): Word { (x & y) ^ (!x & z) }
  function Parity(x: Word, y: Word, z: Word): Word { x ^ y ^ z }
  function Maj(x: Word, y: Word, z: Word): Word { (x & y) ^ (x & z) ^ (y & z) }

  function F(t: nat, x: Word, y: Word, z: Word): Word {
    if t < 20 then Ch(x, y, z) else if 40 <= t < 60 then Maj(x, y, z) else Parity(x, y, z)
  }

  /** The constants of section 4.2.1. */
  function K(t: nat): Word {
    if t < 20 then 0x5a827999 else if t < 40 then 0x6ed9eba1 else if t < 60 then 0x8f1bbcdc else 0xca62c1d6
  }

  /** They are the first 32 bits of the square roots of 2, 3, 5 and 10, a quarter of them before the point. */
  lemma ConstantsAreRoots(t: nat)
    requires t < 80
    ensures var k: int, m := K(t) as int, if t < 20 then 2 else if t < 40 then 3 else if t < 60 then 5 else 10;
            k * k <= m * 0x1000_0000_0000_0000 < (k + 1) * (k + 1)
  {
  }

  /** A word of a block, the first octet the highest. */
  function WordAt(block: seq<Octet>, i: nat): Word
    requires 4 * i + 4 <= |block|
  {
    ((block[4 * i] as Word) << 24) | ((block[4 * i + 1] as Word) << 16)
    | ((block[4 * i + 2] as Word) << 8) | (block[4 * i + 3] as Word)
  }

  function Mix(a: Word, b: Word, c: Word, d: Word): Word { Rol(a ^ b ^ c ^ d, 1) }

  /** The message schedule of section 6.1.2. */
  function W(block: seq<Octet>, t: nat): Word
    requires |block| == 64
  {
    if t < 16 then WordAt(block, t)
    else Mix(W(block, t - 3), W(block, t - 8), W(block, t - 14), W(block, t - 16))
  }

  function Sum(p: Word, q: Word, e: Word, k: Word, w: Word): Word { p + q + e + k + w }

  function Temp(r: Registers, t: nat, w: Word): Word {
    Sum(Rol(r.a, 5), F(t, r.b, r.c, r.d), r.e, K(t), w)
  }

  /** One round, all five variables moving on by one. */
  function Round(r: Registers, t: nat, w: Word): Registers {
    Registers(Temp(r, t, w), r.a, Rol(r.b, 30), r.c, r.d)
  }

  function Rounds(h: Registers, block: seq<Octet>, t: nat): Registers
    requires |block| == 64
  {
    if t == 0 then h else Round(Rounds(h, block, t - 1), t - 1, W(block, t - 1))
  }

  function Plus(x: Registers, y: Registers): Registers {
    Registers(x.a + y.a, x.b + y.b, x.c + y.c, x.d + y.d, x.e + y.e)
  }

  function Compress(h: Registers, block: seq<Octet>): Registers
    requires |block| == 64
  {
    Plus(h, Rounds(h, block, 80))
  }

  /** All whole blocks of the octets, one after another. */
  function Absorb(h: Registers, octets: seq<Octet>): Registers
    decreases |octets|
  {
    if |octets| < 64 then h else Absorb(Compress(h, octets[..64]), octets[64..])
  }

  function AsOctet(n: nat): Octet
    requires n < 256
  {
    n as Octet
  }

  /** The lowest octet of a number. */
  function Low(n: nat): Octet { AsOctet(n % 256) }

  function Octets64(n: nat): seq<Octet>
    requires n < 0x1_0000_0000_0000_0000
  {
    [Low(n / 0x100_0000_0000_0000), Low(n / 0x1_0000_0000_0000), Low(n / 0x100_0000_0000), Low(n / 0x1_0000_0000),
     Low(n / 0x100_0000), Low(n / 0x1_0000), Low(n / 0x100), Low(n)]
  }

  function Zeros(n: nat): (r: seq<Octet>)
    ensures |r| == n
  {
    seq(n, _ => 0)
  }

  /** How many zeros the padding of a message has. */
  function ZeroCount(length: nat): nat { (119 - length % 64) % 64 }

  /** The padding of section 5.1.1, for a message of so many octets. */
  function Padding(length: nat): seq<Octet>
    requires length < 0x2000_0000_0000_0000
  {
    [0x80] + Zeros(ZeroCount(length)) + Octets64(8 * length)
  }

  /** The digest as a hash value. */
  function Digest(message: seq<Octet>): Registers
    requires |message| < 0x2000_0000_0000_0000
  {
    Absorb(INITIAL, message + Padding(|message|))
  }

  lemma {:induction false} AbsorbAppends(h: Registers, a: seq<Octet>, b: seq<Octet>)
    requires |a| % 64 == 0
    ensures Absorb(h, a + b) == Absorb(Absorb(h, a), b)
    decreases |a|
  {
    hide Compress;
    if |a| == 0 {
      assert a + b == b;
    } else {
      AbsorbAppends(Compress(h, a[..64]), a[64..], b);
      assert (a + b)[..64] == a[..64] && (a + b)[64..] == a[64..] + b;
    }
  }

  lemma AbsorbBlock(h: Registers, block: seq<Octet>)
    requires |block| == 64
    ensures Absorb(h, block) == Compress(h, block)
  {
    hide Compress;
    assert block[..64] == block && block[64..] == [];
  }

  // ---------------------------------------------------------------- other forms

  /** How the two implementations write the functions of section 4.1.1. */
  lemma ChByMux(x: Word, y: Word, z: Word)
    ensures z ^ (x & (y ^ z)) == Ch(x, y, z)
    ensures (x & (y ^ z)) ^ z == Ch(x, y, z)
  {
  }

  lemma MajByOr(x: Word, y: Word, z: Word)
    ensures (x & y) | (z & (x | y)) == Maj(x, y, z)
    ensures ((x | y) & z) | (x & y) == Maj(x, y, z)
  {
  }
}
