/** The compression function of lib/md5.c: 64 unrolled steps on four rotating registers. */
module Md5Compression {
  import opened CBytes
  import opened Md5Rfc

  // ---- the macros ----

  function F1(x: bv32, y: bv32, z: bv32): bv32 { z ^ (x & (y ^ z)) }

  function F2(x: bv32, y: bv32, z: bv32): bv32 { F1(z, x, y) }

  function F3(x: bv32, y: bv32, z: bv32): bv32 { x ^ y ^ z }

  function F4(x: bv32, y: bv32, z: bv32): bv32 { y ^ (x | !z) }

  /** What `MD5STEP` leaves in its register w when macro number `f` is applied to x, y and z. */
  function Md5Step(f: nat, w: u32, x: u32, y: u32, z: u32, data: u32, s: nat): u32
    requires 1 <= f <= 4 && s < 32
  {
    var t, u, v := Bits(x), Bits(y), Bits(z);
    var mixed := if f == 1 then Word(F1(t, u, v)) else if f == 2 then Word(F2(t, u, v))
                 else if f == 3 then Word(F3(t, u, v)) else Word(F4(t, u, v));
    Plus(RotateLeft(Plus(w, Plus(mixed, data)), s), x)
  }

  // ---- agreement with RFC 1321 ----

  lemma SelectionBits(x: bv32, y: bv32, z: bv32)
    ensures z ^ (x & (y ^ z)) == (x & y) | (!x & z)
  {
  }

  lemma TurnedSelectionBits(x: bv32, y: bv32, z: bv32)
    ensures z ^ (x & (y ^ z)) == (y & x) | (z & !x)
  {
  }

  /** The optimised first macro is the selection F of section 3.4; the second, which reuses the
      first with its arguments turned, is the selection G. */
  lemma SelectionsAgree(x: bv32, y: bv32, z: bv32)
    ensures F1(x, y, z) == F(x, y, z) && F2(x, y, z) == G(x, y, z)
  {
    SelectionBits(x, y, z);
    TurnedSelectionBits(z, x, y);
  }

  lemma PlusAssociates(w: u32, f: u32, x: u32, t: u32)
    ensures Plus(w, Plus(f, Plus(x, t))) == (w + f + x + t) % WORD
  {
  }

  /** The value that the code's step i gives the register it changes. */
  function Stepped(i: nat, w: u32, x: u32, y: u32, z: u32, input: seq<u32>): u32
    requires i < 64 && |input| == 16
  {
    Md5Step(1 + i / 16, w, x, y, z, Plus(input[WordIndex(i)], Sine(i)), Shift(i))
  }

  /** One macro call is one step of section 3.4. */
  lemma StepAgrees(i: nat, r: Regs, input: seq<u32>)
    requires i < 64 && |input| == 16
    ensures Step(i, r, input) == Regs(r.d, Stepped(i, r.a, r.b, r.c, r.d, input), r.b, r.c)
  {
    hide Word, Bits, F, G, F1, F2, RotateLeft;
    SelectionsAgree(Bits(r.b), Bits(r.c), Bits(r.d));
    PlusAssociates(r.a, Mix(i, r.b, r.c, r.d), input[WordIndex(i)], Sine(i));
  }

  /** Four macro calls bring the register names back to their places. */
  lemma FourStepsAgree(r: Regs, input: seq<u32>, i: nat, a: u32, b: u32, c: u32, d: u32)
    requires i <= 60 && |input| == 16
    requires Regs(a, b, c, d) == Steps(r, input, i)
    ensures var a1 := Stepped(i, a, b, c, d, input);
            var d1 := Stepped(i + 1, d, a1, b, c, input);
            var c1 := Stepped(i + 2, c, d1, a1, b, input);
            var b1 := Stepped(i + 3, b, c1, d1, a1, input);
            Steps(r, input, i + 4) == Regs(a1, b1, c1, d1)
  {
    hide Stepped, Step;
    StepAgrees(i, Steps(r, input, i), input);
    StepAgrees(i + 1, Steps(r, input, i + 1), input);
    StepAgrees(i + 2, Steps(r, input, i + 2), input);
    StepAgrees(i + 3, Steps(r, input, i + 3), input);
  }

  method Round1(input: seq<u32>, a0: u32, b0: u32, c0: u32, d0: u32, ghost r: Regs)
    returns (a: u32, b: u32, c: u32, d: u32)
    requires |input| == 16
    requires Regs(a0, b0, c0, d0) == Steps(r, input, 0)
    ensures Regs(a, b, c, d) == Steps(r, input, 16)
  {
    hide Md5Step, Step, Steps, Plus;
    a, b, c, d := a0, b0, c0, d0;
    FourStepsAgree(r, input, 0, a, b, c, d);
    a := Md5Step(1, a, b, c, d, Plus(input[0], 0xd76aa478), 7);
    d := Md5Step(1, d, a, b, c, Plus(input[1], 0xe8c7b756), 12);
    c := Md5Step(1, c, d, a, b, Plus(input[2], 0x242070db), 17);
    b := Md5Step(1, b, c, d, a, Plus(input[3], 0xc1bdceee), 22);
    FourStepsAgree(r, input, 4, a, b, c, d);
    a := Md5Step(1, a, b, c, d, Plus(input[4], 0xf57c0faf), 7);
    d := Md5Step(1, d, a, b, c, Plus(input[5], 0x4787c62a), 12);
    c := Md5Step(1, c, d, a, b, Plus(input[6], 0xa8304613), 17);
    b := Md5Step(1, b, c, d, a, Plus(input[7], 0xfd469501), 22);
    FourStepsAgree(r, input, 8, a, b, c, d);
    a := Md5Step(1, a, b, c, d, Plus(input[8], 0x698098d8), 7);
    d := Md5Step(1, d, a, b, c, Plus(input[9], 0x8b44f7af), 12);
    c := Md5Step(1, c, d, a, b, Plus(input[10], 0xffff5bb1), 17);
    b := Md5Step(1, b, c, d, a, Plus(input[11], 0x895cd7be), 22);
    FourStepsAgree(r, input, 12, a, b, c, d);
    a := Md5Step(1, a, b, c, d, Plus(input[12], 0x6b901122), 7);
    d := Md5Step(1, d, a, b, c, Plus(input[13], 0xfd987193), 12);
    c := Md5Step(1, c, d, a, b, Plus(input[14], 0xa679438e), 17);
    b := Md5Step(1, b, c, d, a, Plus(input[15], 0x49b40821), 22);
  }

  method Round2(input: seq<u32>, a0: u32, b0: u32, c0: u32, d0: u32, ghost r: Regs)
    returns (a: u32, b: u32, c: u32, d: u32)
    requires |input| == 16
    requires Regs(a0, b0, c0, d0) == Steps(r, input, 16)
    ensures Regs(a, b, c, d) == Steps(r, input, 32)
  {
    hide Md5Step, Step, Steps, Plus;
    a, b, c, d := a0, b0, c0, d0;
    FourStepsAgree(r, input, 16, a, b, c, d);
    a := Md5Step(2, a, b, c, d, Plus(input[1], 0xf61e2562), 5);
    d := Md5Step(2, d, a, b, c, Plus(input[6], 0xc040b340), 9);
    c := Md5Step(2, c, d, a, b, Plus(input[11], 0x265e5a51), 14);
    b := Md5Step(2, b, c, d, a, Plus(input[0], 0xe9b6c7aa), 20);
    FourStepsAgree(r, input, 20, a, b, c, d);
    a := Md5Step(2, a, b, c, d, Plus(input[5], 0xd62f105d), 5);
    d := Md5Step(2, d, a, b, c, Plus(input[10], 0x02441453), 9);
    c := Md5Step(2, c, d, a, b, Plus(input[15], 0xd8a1e681), 14);
    b := Md5Step(2, b, c, d, a, Plus(input[4], 0xe7d3fbc8), 20);
    FourStepsAgree(r, input, 24, a, b, c, d);
    a := Md5Step(2, a, b, c, d, Plus(input[9], 0x21e1cde6), 5);
    d := Md5Step(2, d, a, b, c, Plus(input[14], 0xc33707d6), 9);
    c := Md5Step(2, c, d, a, b, Plus(input[3], 0xf4d50d87), 14);
    b := Md5Step(2, b, c, d, a, Plus(input[8], 0x455a14ed), 20);
    FourStepsAgree(r, input, 28, a, b, c, d);
    a := Md5Step(2, a, b, c, d, Plus(input[13], 0xa9e3e905), 5);
    d := Md5Step(2, d, a, b, c, Plus(input[2], 0xfcefa3f8), 9);
    c := Md5Step(2, c, d, a, b, Plus(input[7], 0x676f02d9), 14);
    b := Md5Step(2, b, c, d, a, Plus(input[12], 0x8d2a4c8a), 20);
  }

  method Round3(input: seq<u32>, a0: u32, b0: u32, c0: u32, d0: u32, ghost r: Regs)
    returns (a: u32, b: u32, c: u32, d: u32)
    requires |input| == 16
    requires Regs(a0, b0, c0, d0) == Steps(r, input, 32)
    ensures Regs(a, b, c, d) == Steps(r, input, 48)
  {
    hide Md5Step, Step, Steps, Plus;
    a, b, c, d := a0, b0, c0, d0;
    FourStepsAgree(r, input, 32, a, b, c, d);
    a := Md5Step(3, a, b, c, d, Plus(input[5], 0xfffa3942), 4);
    d := Md5Step(3, d, a, b, c, Plus(input[8], 0x8771f681), 11);
    c := Md5Step(3, c, d, a, b, Plus(input[11], 0x6d9d6122), 16);
    b := Md5Step(3, b, c, d, a, Plus(input[14], 0xfde5380c), 23);
    FourStepsAgree(r, input, 36, a, b, c, d);
    a := Md5Step(3, a, b, c, d, Plus(input[1], 0xa4beea44), 4);
    d := Md5Step(3, d, a, b, c, Plus(input[4], 0x4bdecfa9), 11);
    c := Md5Step(3, c, d, a, b, Plus(input[7], 0xf6bb4b60), 16);
    b := Md5Step(3, b, c, d, a, Plus(input[10], 0xbebfbc70), 23);
    FourStepsAgree(r, input, 40, a, b, c, d);
    a := Md5Step(3, a, b, c, d, Plus(input[13], 0x289b7ec6), 4);
    d := Md5Step(3, d, a, b, c, Plus(input[0], 0xeaa127fa), 11);
    c := Md5Step(3, c, d, a, b, Plus(input[3], 0xd4ef3085), 16);
    b := Md5Step(3, b, c, d, a, Plus(input[6], 0x04881d05), 23);
    FourStepsAgree(r, input, 44, a, b, c, d);
    a := Md5Step(3, a, b, c, d, Plus(input[9], 0xd9d4d039), 4);
    d := Md5Step(3, d, a, b, c, Plus(input[12], 0xe6db99e5), 11);
    c := Md5Step(3, c, d, a, b, Plus(input[15], 0x1fa27cf8), 16);
    b := Md5Step(3, b, c, d, a, Plus(input[2], 0xc4ac5665), 23);
  }

  method Round4(input: seq<u32>, a0: u32, b0: u32, c0: u32, d0: u32, ghost r: Regs)
    returns (a: u32, b: u32, c: u32, d: u32)
    requires |input| == 16
    requires Regs(a0, b0, c0, d0) == Steps(r, input, 48)
    ensures Regs(a, b, c, d) == Steps(r, input, 64)
  {
    hide Md5Step, Step, Steps, Plus;
    a, b, c, d := a0, b0, c0, d0;
    FourStepsAgree(r, input, 48, a, b, c, d);
    a := Md5Step(4, a, b, c, d, Plus(input[0], 0xf4292244), 6);
    d := Md5Step(4, d, a, b, c, Plus(input[7], 0x432aff97), 10);
    c := Md5Step(4, c, d, a, b, Plus(input[14], 0xab9423a7), 15);
    b := Md5Step(4, b, c, d, a, Plus(input[5], 0xfc93a039), 21);
    FourStepsAgree(r, input, 52, a, b, c, d);
    a := Md5Step(4, a, b, c, d, Plus(input[12], 0x655b59c3), 6);
    d := Md5Step(4, d, a, b, c, Plus(input[3], 0x8f0ccc92), 10);
    c := Md5Step(4, c, d, a, b, Plus(input[10], 0xffeff47d), 15);
    b := Md5Step(4, b, c, d, a, Plus(input[1], 0x85845dd1), 21);
    FourStepsAgree(r, input, 56, a, b, c, d);
    a := Md5Step(4, a, b, c, d, Plus(input[8], 0x6fa87e4f), 6);
    d := Md5Step(4, d, a, b, c, Plus(input[15], 0xfe2ce6e0), 10);
    c := Md5Step(4, c, d, a, b, Plus(input[6], 0xa3014314), 15);
    b := Md5Step(4, b, c, d, a, Plus(input[13], 0x4e0811a1), 21);
    FourStepsAgree(r, input, 60, a, b, c, d);
    a := Md5Step(4, a, b, c, d, Plus(input[4], 0xf7537e82), 6);
    d := Md5Step(4, d, a, b, c, Plus(input[11], 0xbd3af235), 10);
    c := Md5Step(4, c, d, a, b, Plus(input[2], 0x2ad7d2bb), 15);
    b := Md5Step(4, b, c, d, a, Plus(input[9], 0xeb86d391), 21);
  }

  lemma StepsStart(r: Regs, input: seq<u32>)
    requires |input| == 16
    ensures Steps(r, input, 0) == r
  {
  }

  lemma CompressIs(r: Regs, input: seq<u32>)
    requires |input| == 16
    ensures var s := Steps(r, input, 64);
            Compress(r, input) == Regs(Plus(r.a, s.a), Plus(r.b, s.b), Plus(r.c, s.c), Plus(r.d, s.d))
  {
    hide Step, Steps, Plus;
  }

  method AllRounds(input: seq<u32>, r: Regs) returns (a: u32, b: u32, c: u32, d: u32)
    requires |input| == 16
    ensures Regs(a, b, c, d) == Steps(r, input, 64)
  {
    hide *;
    StepsStart(r, input);
    a, b, c, d := Round1(input, r.a, r.b, r.c, r.d, r);
    a, b, c, d := Round2(input, a, b, c, d, r);
    a, b, c, d := Round3(input, a, b, c, d, r);
    a, b, c, d := Round4(input, a, b, c, d, r);
  }

  /** The 64 unrolled steps, in the four runs of sixteen that share a macro, leave in the chaining
      words what section 3.4 of RFC 1321 computes. */
  method Transform(buf: array<u32>, input: seq<u32>)
    requires buf.Length == 4 && |input| == 16
    modifies buf
    ensures Regs(buf[0], buf[1], buf[2], buf[3])
         == Compress(old(Regs(buf[0], buf[1], buf[2], buf[3])), input)
  {
    hide *;
    ghost var r := Regs(buf[0], buf[1], buf[2], buf[3]);
    var a, b, c, d := AllRounds(input, Regs(buf[0], buf[1], buf[2], buf[3]));
    CompressIs(r, input);
    buf[0] := Plus(buf[0], a);
    buf[1] := Plus(buf[1], b);
    buf[2] := Plus(buf[2], c);
    buf[3] := Plus(buf[3], d);
  }
}
