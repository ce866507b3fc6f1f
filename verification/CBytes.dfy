/** Bytes, C strings and the memory layout of 32-bit words. */
module CBytes {

  datatype Option<+T> = None | Some(value: T)

  /** A C `char` or `unsigned char`, as its unsigned code. */
  type byte = c: char | c as int < 256

  type bytes = seq<byte>

  const WORD := 0x1_0000_0000

  /** `uint32`; its arithmetic wraps modulo WORD. */
  type u32 = w: int | 0 <= w < 0x1_0000_0000

  /** Addition in C's `uint32`. */
  function Plus(x: u32, y: u32): u32 {
    (x + y) % WORD
  }

  /** The crossings between a word as a number and as its bits. */
  function Word(b: bv32): u32 {
    b as u32
  }

  function Bits(w: u32): bv32 {
    w as bv32
  }

  const NUL: byte := '\0'

  const DIGITS: bytes := "0123456789"
  const UPPER: bytes := "ABCDEFGHIJKLMNOPQRSTUVWXYZ"
  const LOWER: bytes := "abcdefghijklmnopqrstuvwxyz"

  lemma AlphabetSizes()
    ensures |DIGITS| == 10 && |UPPER| == |LOWER| == 26
  {
  }

  lemma DigitAt(k: nat)
    requires k < 10
    ensures DIGITS[k] as int == '0' as int + k
  {
  }

  lemma UpperAt(k: nat)
    requires k < 26
    ensures UPPER[k] as int == 'A' as int + k
  {
  }

  lemma LowerAt(k: nat)
    requires k < 26
    ensures LOWER[k] as int == 'a' as int + k
  {
  }

  lemma InAlphabets(c: byte)
    ensures c in DIGITS <==> '0' <= c <= '9'
    ensures c in UPPER <==> 'A' <= c <= 'Z'
    ensures c in LOWER <==> 'a' <= c <= 'z'
  {
    hide DIGITS, UPPER, LOWER;
    AlphabetSizes();
    forall k | 0 <= k < 10 ensures DIGITS[k] as int == '0' as int + k { DigitAt(k); }
    forall k | 0 <= k < 26 ensures UPPER[k] as int == 'A' as int + k { UpperAt(k); }
    forall k | 0 <= k < 26 ensures LOWER[k] as int == 'a' as int + k { LowerAt(k); }
    if '0' <= c <= '9' { assert DIGITS[c as int - '0' as int] == c; }
    if 'A' <= c <= 'Z' { assert UPPER[c as int - 'A' as int] == c; }
    if 'a' <= c <= 'z' { assert LOWER[c as int - 'a' as int] == c; }
  }

  /** What a caller may pass where C expects the characters before a terminator. */
  predicate IsCString(s: bytes) {
    NUL !in s
  }

  lemma SliceIsCString(s: bytes, i: nat, j: nat)
    requires IsCString(s) && i <= j <= |s|
    ensures IsCString(s[i..j])
  {
    assert forall c :: c in s[i..j] ==> c in s;
  }

  /** s[i..j], as a term that proofs can keep closed. */
  function Slice(s: bytes, i: nat, j: nat): (t: bytes)
    requires i <= j <= |s|
    ensures |t| == j - i
  {
    s[i..j]
  }

  lemma SliceOfPrefix(t: bytes, s: bytes, i: nat)
    requires t <= s && i <= |t|
    ensures t[i..] == Slice(s, i, |t|)
  {
  }

  lemma ShorterSlice(s: bytes, i: nat, j: nat)
    requires i < j <= |s|
    ensures Slice(s, i, j)[..j - i - 1] == Slice(s, i, j - 1) && Slice(s, i, j)[j - i - 1] == s[j - 1]
  {
  }

  // ---- scanning ----

  /** The bytes before the first c. */
  function Before(s: bytes, c: byte): (t: bytes)
    ensures t <= s && c !in t && (|t| < |s| ==> s[|t|] == c)
  {
    if s == [] || s[0] == c then [] else [s[0]] + Before(s[1..], c)
  }

  lemma {:induction false} BeforeIs(s: bytes, c: byte, t: bytes)
    requires t <= s && c !in t && (|t| == |s| || s[|t|] == c)
    ensures Before(s, c) == t
  {
    if t == [] {
    } else {
      assert t[0] in t;
      BeforeIs(s[1..], c, t[1..]);
    }
  }

  /** What is left when all leading c are taken off. */
  function DropAll(s: bytes, c: byte): (t: bytes)
    ensures |t| <= |s| && t == s[|s| - |t|..]
    ensures t != [] ==> t[0] != c
    ensures forall i :: 0 <= i < |s| - |t| ==> s[i] == c
  {
    if s != [] && s[0] == c then DropAll(s[1..], c) else s
  }

  lemma {:induction false} DropAllIs(s: bytes, c: byte, k: nat)
    requires k <= |s| && (forall i :: 0 <= i < k ==> s[i] == c) && (k < |s| ==> s[k] != c)
    ensures DropAll(s, c) == s[k..]
  {
    if k == 0 {
    } else {
      DropAllIs(s[1..], c, k - 1);
    }
  }

  lemma {:induction false} DropAllOfAppend(s: bytes, x: bytes, c: byte)
    requires DropAll(s, c) != []
    ensures DropAll(s + x, c) == DropAll(s, c) + x
  {
    assert (s + x)[0] == s[0];
    if s[0] == c {
      assert (s + x)[1..] == s[1..] + x;
      DropAllOfAppend(s[1..], x, c);
    }
  }

  lemma {:induction false} BeforeOfAppend(s: bytes, x: bytes, c: byte)
    requires |Before(s, c)| < |s| || (x != [] && x[0] == c)
    ensures Before(s + x, c) == Before(s, c)
  {
    if s == [] {
      assert s + x == x;
    } else {
      assert (s + x)[0] == s[0] && (s + x)[1..] == s[1..] + x;
      if s[0] != c {
        BeforeOfAppend(s[1..], x, c);
      }
    }
  }

  // ---- lists of strings ----

  function Concat(list: seq<bytes>): bytes {
    if list == [] then [] else list[0] + Concat(list[1..])
  }

  lemma {:induction false} ConcatAppend(a: seq<bytes>, b: seq<bytes>)
    ensures Concat(a + b) == Concat(a) + Concat(b)
  {
    if a == [] {
      assert a + b == b;
    } else {
      assert (a + b)[1..] == a[1..] + b;
      ConcatAppend(a[1..], b);
    }
  }

  lemma ConcatOne(s: bytes)
    ensures Concat([s]) == s
  {
  }

  /** One more string at the end of those so far. */
  lemma ConcatNext(list: seq<bytes>, i: nat)
    requires i < |list|
    ensures Concat(list[..i + 1]) == Concat(list[..i]) + list[i]
  {
    ConcatOne(list[i]);
    hide Concat;
    ConcatAppend(list[..i], [list[i]]);
    assert list[..i] + [list[i]] == list[..i + 1];
  }

  // ---- C strings in memory ----

  /** The C string that starts at the beginning of a piece of memory. */
  function CStr(memory: bytes): (s: bytes)
    ensures IsCString(s) && s <= memory
    ensures |s| < |memory| ==> memory[|s|] == NUL
  {
    Before(memory, NUL)
  }

  lemma CStrIs(memory: bytes, s: bytes)
    requires IsCString(s) && s <= memory
    requires |s| == |memory| || memory[|s|] == NUL
    ensures CStr(memory) == s
  {
    BeforeIs(memory, NUL, s);
  }

  lemma CStrTail(memory: bytes, i: nat)
    requires i <= |CStr(memory)|
    ensures CStr(memory[i..]) == CStr(memory)[i..]
  {
    CStrIs(memory[i..], CStr(memory)[i..]);
  }

  /** At most the first n bytes. */
  function Take(s: bytes, n: nat): (t: bytes)
    ensures t <= s && |t| <= n
  {
    if |s| <= n then s else s[..n]
  }

  function Zeros(n: nat): (z: bytes)
    ensures |z| == n && forall i :: 0 <= i < n ==> z[i] == NUL
  {
    seq(n, _ => NUL)
  }

  /** `memcpy`, or `memset` when `from` is Zeros. */
  method CopyInto(to: array<byte>, at: nat, from: bytes)
    requires at + |from| <= to.Length
    modifies to
    ensures to[..] == old(to[..at]) + from + old(to[at + |from|..])
  {
    forall i | 0 <= i < |from| {
      to[at + i] := from[i];
    }
  }

  /** `strcat`, `strncat` of a string no longer than its bound, and `sprintf` at the offset of the
      terminator: all write a string and its terminator over the old terminator. */
  method Append(to: array<byte>, s: bytes)
    requires IsCString(s) && |CStr(to[..])| + |s| < to.Length
    modifies to
    ensures CStr(to[..]) == old(CStr(to[..])) + s
  {
    var offset := |CStr(to[..])|;
    CopyInto(to, offset, s + [NUL]);
    assert to[..offset + |s|] == old(CStr(to[..])) + s;
    CStrIs(to[..], old(CStr(to[..])) + s);
  }

  /** `strcpy` into a buffer. */
  method Put(to: array<byte>, s: bytes)
    requires IsCString(s) && |s| < to.Length
    modifies to
    ensures CStr(to[..]) == s
  {
    CopyInto(to, 0, s + [NUL]);
    CStrIs(to[..], s);
  }

  /** The four bytes of a word, low-order byte first. */
  function Le32(w: u32): (b: bytes)
    ensures |b| == 4
  {
    var w1 := w / 0x100;
    var w2 := w1 / 0x100;
    [(w % 0x100) as char, (w1 % 0x100) as char, (w2 % 0x100) as char, (w2 / 0x100) as char]
  }

  function FromLe32(b0: byte, b1: byte, b2: byte, b3: byte): u32 {
    b0 as int + 0x100 * (b1 as int + 0x100 * (b2 as int + 0x100 * b3 as int))
  }

  lemma Le32RoundTrip(w: u32)
    ensures var b := Le32(w); FromLe32(b[0], b[1], b[2], b[3]) == w
  {
  }

  /** Low-order byte first. */
  lemma Le32Is(w: u32)
    ensures var b := Le32(w);
            w == b[0] as int + 0x100 * b[1] as int + 0x1_0000 * b[2] as int + 0x100_0000 * b[3] as int
  {
  }

  lemma LowByte(b: byte, rest: nat)
    ensures (b as int + 0x100 * rest) % 0x100 == b as int && (b as int + 0x100 * rest) / 0x100 == rest
  {
  }

  lemma FromLe32RoundTrip(b0: byte, b1: byte, b2: byte, b3: byte)
    ensures Le32(FromLe32(b0, b1, b2, b3)) == [b0, b1, b2, b3]
  {
    LowByte(b2, b3 as int);
    LowByte(b1, b2 as int + 0x100 * b3 as int);
    LowByte(b0, b1 as int + 0x100 * (b2 as int + 0x100 * b3 as int));
  }

  /** The three builds of lib/md5.c: on x86 `byteReverse` is an empty macro; elsewhere it is a
      function, and the machine stores its words in either order. */
  datatype Machine = X86 | LittleEndian | BigEndian {

    /** How this machine lays a word out in memory. */
    function Store(w: u32): (b: bytes)
      ensures |b| == 4
    {
      var le := Le32(w);
      if BigEndian? then [le[3], le[2], le[1], le[0]] else le
    }

    /** How this machine reads four bytes of memory as a word. */
    function Load(b0: byte, b1: byte, b2: byte, b3: byte): u32 {
      if BigEndian? then FromLe32(b3, b2, b1, b0) else FromLe32(b0, b1, b2, b3)
    }
  }
}
