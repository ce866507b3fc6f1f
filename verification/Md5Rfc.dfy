/** The MD5 message digest as sections 3.1 to 3.5 of RFC 1321 define it. */
module Md5Rfc {
  import opened CBytes

  // ---- sections 3.1 and 3.2: padding and length ----

  /** How many zero bytes follow the 0x80 byte: the fewest that leave 56 modulo 64. */
  function PadZeros(n: nat): nat {
    (55 - n) % 64
  }

  /** The bit length of a message of n bytes modulo 2^64, as two words, low-order word first. */
  function LengthBytes(n: nat): (b: bytes)
    ensures |b| == 8
  {
    var bits := 8 * n % 0x1_0000_0000_0000_0000;
    Le32(bits % WORD) + Le32(bits / WORD)
  }

  /** The eight bytes are that number in base 256, low-order byte first. */
  lemma LengthBytesAre(n: nat)
    ensures var b := LengthBytes(n);
            && (b[0] as int + 0x100 * b[1] as int + 0x1_0000 * b[2] as int + 0x100_0000 * b[3] as int)
               + 0x1_0000_0000
                 * (b[4] as int + 0x100 * b[5] as int + 0x1_0000 * b[6] as int + 0x100_0000 * b[7] as int)
               == 8 * n % 0x1_0000_0000_0000_0000
  {
    hide Le32;
    var bits := 8 * n % 0x1_0000_0000_0000_0000;
    Le32Is(bits % WORD);
    Le32Is(bits / WORD);
  }

  lemma PadZerosIs(n: nat)
    ensures PadZeros(n) == if n % 64 <= 55 then 55 - n % 64 else 119 - n % 64
  {
    assert 55 - n == 55 - n % 64 - 64 * (n / 64);
  }

  /** The padding is the shortest that works: k zero bytes fewer would not leave eight bytes in the block. */
  lemma PadZerosIsLeast(n: nat, k: nat)
    ensures (n + 1 + PadZeros(n)) % 64 == 56
    ensures k < PadZeros(n) ==> (n + 1 + k) % 64 != 56
  {
    PadZerosIs(n);
    assert n + 1 + k == 64 * (n / 64) + (n % 64 + 1 + k);
  }

  lemma PadLength(n: nat)
    ensures (n + 1 + PadZeros(n) + 8) % 64 == 0
  {
    PadZerosIs(n);
  }

  function Pad(m: bytes): (p: bytes)
    ensures |p| % 64 == 0 && |m| < |p|
  {
    PadLength(|m|);
    m + [0x80 as char] + Zeros(PadZeros(|m|)) + LengthBytes(|m|)
  }

  // ---- section 3.4: processing one 16-word block ----

  datatype Regs = Regs(a: u32, b: u32, c: u32, d: u32)

  function F(x: bv32, y: bv32, z: bv32): bv32 { (x & y) | (!x & z) }

  function G(x: bv32, y: bv32, z: bv32): bv32 { (x & z) | (y & !z) }

  function H(x: bv32, y: bv32, z: bv32): bv32 { x ^ y ^ z }

  function I(x: bv32, y: bv32, z: bv32): bv32 { y ^ (x | !z) }

  /** The auxiliary function of step i. */
  function Mix(i: nat, x: u32, y: u32, z: u32): u32 {
    var u, v, w := Bits(x), Bits(y), Bits(z);
    if i < 16 then Word(F(u, v, w)) else if i < 32 then Word(G(u, v, w))
    else if i < 48 then Word(H(u, v, w)) else Word(I(u, v, w))
  }

  /** Which word of the block step i adds. */
  function WordIndex(i: nat): nat {
    (if i < 16 then i else if i < 32 then 5 * i + 1 else if i < 48 then 3 * i + 5 else 7 * i) % 16
  }

  /** How far step i rotates. */
  function Shift(i: nat): nat {
    var column := i % 4;
    if i < 16 then if column == 0 then 7 else if column == 1 then 12 else if column == 2 then 17 else 22
    else if i < 32 then if column == 0 then 5 else if column == 1 then 9 else if column == 2 then 14 else 20
    else if i < 48 then if column == 0 then 4 else if column == 1 then 11 else if column == 2 then 16 else 23
    else if column == 0 then 6 else if column == 1 then 10 else if column == 2 then 15 else 21
  }

  /** T[i + 1]: the integer part of 2^32 times abs(sin(i + 1)). */
  function Sine(i: nat): u32
    requires i < 64
  {
    if i < 16 then
      match i
      case 0 => 0xd76aa478 case 1 => 0xe8c7b756 case 2 => 0x242070db case 3 => 0xc1bdceee
      case 4 => 0xf57c0faf case 5 => 0x4787c62a case 6 => 0xa8304613 case 7 => 0xfd469501
      case 8 => 0x698098d8 case 9 => 0x8b44f7af case 10 => 0xffff5bb1 case 11 => 0x895cd7be
      case 12 => 0x6b901122 case 13 => 0xfd987193 case 14 => 0xa679438e case _ => 0x49b40821
    else if i < 32 then
      match i - 16
      case 0 => 0xf61e2562 case 1 => 0xc040b340 case 2 => 0x265e5a51 case 3 => 0xe9b6c7aa
      case 4 => 0xd62f105d case 5 => 0x02441453 case 6 => 0xd8a1e681 case 7 => 0xe7d3fbc8
      case 8 => 0x21e1cde6 case 9 => 0xc33707d6 case 10 => 0xf4d50d87 case 11 => 0x455a14ed
      case 12 => 0xa9e3e905 case 13 => 0xfcefa3f8 case 14 => 0x676f02d9 case _ => 0x8d2a4c8a
    else if i < 48 then
      match i - 32
      case 0 => 0xfffa3942 case 1 => 0x8771f681 case 2 => 0x6d9d6122 case 3 => 0xfde5380c
      case 4 => 0xa4beea44 case 5 => 0x4bdecfa9 case 6 => 0xf6bb4b60 case 7 => 0xbebfbc70
      case 8 => 0x289b7ec6 case 9 => 0xeaa127fa case 10 => 0xd4ef3085 case 11 => 0x04881d05
      case 12 => 0xd9d4d039 case 13 => 0xe6db99e5 case 14 => 0x1fa27cf8 case _ => 0xc4ac5665
    else
      match i - 48
      case 0 => 0xf4292244 case 1 => 0x432aff97 case 2 => 0xab9423a7 case 3 => 0xfc93a039
      case 4 => 0x655b59c3 case 5 => 0x8f0ccc92 case 6 => 0xffeff47d case 7 => 0x85845dd1
      case 8 => 0x6fa87e4f case 9 => 0xfe2ce6e0 case 10 => 0xa3014314 case 11 => 0x4e0811a1
      case 12 => 0xf7537e82 case 13 => 0xbd3af235 case 14 => 0x2ad7d2bb case _ => 0xeb86d391
  }

  function Rotated(u: bv32, s: nat): bv32
    requires s < 32
  {
    (u << s) | (u >> (32 - s))
  }

  /** Shifting both ways and joining is rotating, for every amount that occurs. */
  lemma RotatedIsRotation(u: bv32)
    ensures Rotated(u, 4) == u.RotateLeft(4) && Rotated(u, 5) == u.RotateLeft(5)
    ensures Rotated(u, 6) == u.RotateLeft(6) && Rotated(u, 7) == u.RotateLeft(7)
    ensures Rotated(u, 9) == u.RotateLeft(9) && Rotated(u, 10) == u.RotateLeft(10)
    ensures Rotated(u, 11) == u.RotateLeft(11) && Rotated(u, 12) == u.RotateLeft(12)
    ensures Rotated(u, 14) == u.RotateLeft(14) && Rotated(u, 15) == u.RotateLeft(15)
    ensures Rotated(u, 16) == u.RotateLeft(16) && Rotated(u, 17) == u.RotateLeft(17)
    ensures Rotated(u, 20) == u.RotateLeft(20) && Rotated(u, 21) == u.RotateLeft(21)
    ensures Rotated(u, 22) == u.RotateLeft(22) && Rotated(u, 23) == u.RotateLeft(23)
  {
  }

  function RotateLeft(w: u32, s: nat): u32
    requires s < 32
  {
    Word(Rotated(Bits(w), s))
  }

  /** Step i: the register that changes is always read as `a`, and the names then move round. */
  function Step(i: nat, r: Regs, x: seq<u32>): Regs
    requires i < 64 && |x| == 16
  {
    var sum := (r.a + Mix(i, r.b, r.c, r.d) + x[WordIndex(i)] + Sine(i)) % WORD;
    Regs(r.d, Plus(r.b, RotateLeft(sum, Shift(i))), r.b, r.c)
  }

  function Steps(r: Regs, x: seq<u32>, n: nat): Regs
    requires n <= 64 && |x| == 16
  {
    if n == 0 then r else Step(n - 1, Steps(r, x, n - 1), x)
  }

  function Compress(r: Regs, x: seq<u32>): Regs
    requires |x| == 16
  {
    var s := Steps(r, x, 64);
    Regs(Plus(r.a, s.a), Plus(r.b, s.b), Plus(r.c, s.c), Plus(r.d, s.d))
  }

  // ---- sections 3.3 to 3.5: the whole message ----

  const START := Regs(0x67452301, 0xefcdab89, 0x98badcfe, 0x10325476)

  function BlockWords(b: bytes): (x: seq<u32>)
    requires |b| == 64
    ensures |x| == 16
  {
    seq(16, i requires 0 <= i < 16 => FromLe32(b[4 * i], b[4 * i + 1], b[4 * i + 2], b[4 * i + 3]))
  }

  /** The registers after the first n blocks of m. */
  function StateAfter(m: bytes, n: nat): Regs
    requires 64 * n <= |m|
  {
    if n == 0 then START else Compress(StateAfter(m, n - 1), BlockWords(m[64 * (n - 1)..64 * n]))
  }

  function Output(r: Regs): (d: bytes)
    ensures |d| == 16
  {
    Le32(r.a) + Le32(r.b) + Le32(r.c) + Le32(r.d)
  }

  function Digest(m: bytes): (d: bytes)
    ensures |d| == 16
  {
    Output(StateAfter(Pad(m), |Pad(m)| / 64))
  }

  // ---- what the padding looks like block by block ----

  /** Blocks that two messages share lead to the same registers. */
  lemma {:induction false} StateOfPrefix(m: bytes, d: bytes, n: nat)
    requires 64 * n <= |m|
    ensures StateAfter(m + d, n) == StateAfter(m, n)
  {
    hide Compress, BlockWords;
    if n == 0 {
    } else {
      StateOfPrefix(m, d, n - 1);
      assert (m + d)[64 * (n - 1)..64 * n] == m[64 * (n - 1)..64 * n];
    }
  }

  /** At most 55 pending bytes: the padding closes the block they are in. */
  lemma PadInOneBlock(m: bytes, n: nat, pending: nat)
    requires |m| == 64 * n + pending && pending <= 55
    ensures |Pad(m)| == 64 * (n + 1)
    ensures Pad(m)[64 * n..] == m[64 * n..] + [0x80 as char] + Zeros(55 - pending) + LengthBytes(|m|)
  {
    assert PadZeros(|m|) == 55 - pending;
  }

  /** More: the block they are in is filled with zeros and the length goes into a block of its own. */
  lemma PadInTwoBlocks(m: bytes, n: nat, pending: nat)
    requires |m| == 64 * n + pending && 55 < pending < 64
    ensures |Pad(m)| == 64 * (n + 2)
    ensures Pad(m)[64 * n..64 * (n + 1)] == m[64 * n..] + [0x80 as char] + Zeros(63 - pending)
    ensures Pad(m)[64 * (n + 1)..] == Zeros(56) + LengthBytes(|m|)
  {
    assert PadZeros(|m|) == 119 - pending;
    assert Zeros(119 - pending) == Zeros(63 - pending) + Zeros(56);
    var head := m + [0x80 as char] + Zeros(63 - pending);
    assert Pad(m) == head + (Zeros(56) + LengthBytes(|m|));
    assert head == m[..64 * n] + (m[64 * n..] + [0x80 as char] + Zeros(63 - pending));
  }
}
