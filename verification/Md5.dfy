/** lib/md5.c: MD5 taken in piece by piece, through a context that is updated in place. */
module Md5 {
  import opened CBytes
  import opened Md5Rfc
  import opened Md5Compression

  // ---- words in memory ----

  /** Bytes k, k + 1, k + 2 and k + 3 of a memory as the machine reads them. */
  function LoadAt(machine: Machine, memory: bytes, k: nat): u32
    requires k + 4 <= |memory|
  {
    machine.Load(memory[k], memory[k + 1], memory[k + 2], memory[k + 3])
  }

  function FromLeAt(memory: bytes, k: nat): u32
    requires k + 4 <= |memory|
  {
    FromLe32(memory[k], memory[k + 1], memory[k + 2], memory[k + 3])
  }

  /** `(uint32 *) ctx->in`. */
  function LoadWords(machine: Machine, memory: bytes): (x: seq<u32>)
    requires |memory| == 64
    ensures |x| == 16
  {
    seq(16, i requires 0 <= i < 16 => LoadAt(machine, memory, 4 * i))
  }

  /** On a little-endian machine rewriting a word from its little-endian bytes changes nothing. */
  lemma StoreOfFromLe32(machine: Machine, b0: byte, b1: byte, b2: byte, b3: byte)
    ensures machine.Store(FromLe32(b0, b1, b2, b3)) ==
            if machine.BigEndian? then [b3, b2, b1, b0] else [b0, b1, b2, b3]
  {
    FromLe32RoundTrip(b0, b1, b2, b3);
  }

  lemma LoadOfStore(machine: Machine, w: u32)
    ensures var b := machine.Store(w); machine.Load(b[0], b[1], b[2], b[3]) == w
  {
    Le32RoundTrip(w);
  }

  /** Where `byteReverse` finds the byte it puts at k. */
  function Source(machine: Machine, k: nat): nat {
    if machine.BigEndian? then k - k % 4 + (3 - k % 4) else k
  }

  lemma SourceIs(machine: Machine, word: nat, j: nat)
    requires j < 4
    ensures Source(machine, 4 * word + j) == 4 * word + if machine.BigEndian? then 3 - j else j
  {
  }

  /** Rewrites word number `word` of a memory the way the body of the loop in `byteReverse` does. */
  method ReverseWord(machine: Machine, buf: array<byte>, word: nat)
    requires 4 * word + 4 <= buf.Length
    modifies buf
    ensures forall k :: 4 * word <= k < 4 * word + 4 ==>
              4 * word <= Source(machine, k) < 4 * word + 4 && buf[k] == old(buf[Source(machine, k)])
    ensures forall k :: 0 <= k < 4 * word || 4 * word + 4 <= k < buf.Length ==> buf[k] == old(buf[k])
  {
    hide Source, FromLe32, Machine.Store;
    var p := 4 * word;
    var t := FromLe32(buf[p], buf[p + 1], buf[p + 2], buf[p + 3]);
    StoreOfFromLe32(machine, buf[p], buf[p + 1], buf[p + 2], buf[p + 3]);
    SourceIs(machine, word, 0);
    SourceIs(machine, word, 1);
    SourceIs(machine, word, 2);
    SourceIs(machine, word, 3);
    var stored := machine.Store(t);
    buf[p], buf[p + 1], buf[p + 2], buf[p + 3] := stored[0], stored[1], stored[2], stored[3];
  }

  /** Turns little-endian words into words of this machine; nothing at all on x86. */
  method ByteReverse(machine: Machine, buf: array<byte>, longs: nat)
    requires 0 < longs && 4 * longs <= buf.Length
    modifies buf
    ensures forall k :: 0 <= k < 4 * longs ==> Source(machine, k) < buf.Length && buf[k] == old(buf[Source(machine, k)])
    ensures forall k :: 4 * longs <= k < buf.Length ==> buf[k] == old(buf[k])
  {
    if machine.X86? {
      return;
    }
    hide Source;
    var word, left := 0, longs;
    while true
      invariant 0 < left && word == longs - left
      invariant forall k :: 0 <= k < 4 * word ==>
                  Source(machine, k) < buf.Length && buf[k] == old(buf[Source(machine, k)])
      invariant forall k :: 4 * word <= k < buf.Length ==> buf[k] == old(buf[k])
      decreases left
    {
      ReverseWord(machine, buf, word);
      word := word + 1;
      left := left - 1;
      if left == 0 {
        break;
      }
    }
  }

  /** After `byteReverse` a machine of either kind loads the words of section 2 of RFC 1321. */
  lemma LoadAfterReverse(machine: Machine, before: bytes, after: bytes, word: nat)
    requires 4 * word + 4 <= |before| == |after|
    requires forall k :: 4 * word <= k < 4 * word + 4 ==>
               Source(machine, k) < |before| && after[k] == before[Source(machine, k)]
    ensures LoadAt(machine, after, 4 * word) == FromLeAt(before, 4 * word)
  {
    hide Source;
    SourceIs(machine, word, 0);
    SourceIs(machine, word, 1);
    SourceIs(machine, word, 2);
    SourceIs(machine, word, 3);
  }

  lemma LoadWordsAfterReverse(machine: Machine, before: bytes, after: bytes)
    requires |before| == |after| == 64
    requires forall k :: 0 <= k < 64 ==> Source(machine, k) < 64 && after[k] == before[Source(machine, k)]
    ensures LoadWords(machine, after) == BlockWords(before)
  {
    hide Source, LoadAt, FromLe32;
    forall i | 0 <= i < 16 ensures LoadWords(machine, after)[i] == BlockWords(before)[i] {
      LoadAfterReverse(machine, before, after, i);
    }
  }

  /** The last block: fourteen words are reversed, the two counter words are stored as they are. */
  lemma LoadLengthBlock(machine: Machine, before: bytes, after: bytes, low: u32, high: u32)
    requires |before| == |after| == 64
    requires forall k :: 0 <= k < 56 ==> Source(machine, k) < 64 && after[k] == before[Source(machine, k)]
    requires after[56..] == machine.Store(low) + machine.Store(high)
    ensures LoadWords(machine, after) == BlockWords(before[..56] + (Le32(low) + Le32(high)))
  {
    hide Source, FromLe32, Le32;
    var block := before[..56] + (Le32(low) + Le32(high));
    forall i | 0 <= i < 14 ensures LoadWords(machine, after)[i] == BlockWords(block)[i] {
      LoadAfterReverse(machine, before, after, i);
    }
    LoadOfStore(machine, low);
    LoadOfStore(machine, high);
    Le32RoundTrip(low);
    Le32RoundTrip(high);
    var stored := machine.Store(low) + machine.Store(high);
    assert forall j :: 0 <= j < 8 ==> after[56 + j] == stored[j];
    assert LoadAt(machine, after, 56) == low && LoadAt(machine, after, 60) == high;
    assert FromLeAt(block, 56) == low && FromLeAt(block, 60) == high;
  }

  /** Storing a word and reversing it leaves its bytes in little-endian order on every machine. */
  lemma ReverseOfStore(machine: Machine, memory: bytes, after: bytes, word: nat, w: u32)
    requires 4 * word + 4 <= |memory| == |after|
    requires memory[4 * word..4 * word + 4] == machine.Store(w)
    requires forall k :: 4 * word <= k < 4 * word + 4 ==>
               Source(machine, k) < |memory| && after[k] == memory[Source(machine, k)]
    ensures after[4 * word..4 * word + 4] == Le32(w)
  {
    hide Source, Le32;
    var stored := machine.Store(w);
    assert forall j :: 0 <= j < 4 ==> memory[4 * word + j] == stored[j];
    SourceIs(machine, word, 0);
    SourceIs(machine, word, 1);
    SourceIs(machine, word, 2);
    SourceIs(machine, word, 3);
  }

  lemma ReverseOfStores(machine: Machine, r: Regs, memory: bytes, after: bytes)
    requires memory == machine.Store(r.a) + machine.Store(r.b) + machine.Store(r.c) + machine.Store(r.d)
    requires |after| == 16
    requires forall k :: 0 <= k < 16 ==> Source(machine, k) < 16 && after[k] == memory[Source(machine, k)]
    ensures after == Output(r)
  {
    hide Source, Le32, Machine.Store;
    ReverseOfStore(machine, memory, after, 0, r.a);
    ReverseOfStore(machine, memory, after, 1, r.b);
    ReverseOfStore(machine, memory, after, 2, r.c);
    ReverseOfStore(machine, memory, after, 3, r.d);
    assert after == after[0..4] + after[4..8] + after[8..12] + after[12..16];
  }

  // ---- the bit counter ----

  /** The two counter words hold the bit length of n bytes modulo 2^64. */
  ghost predicate Counts(low: u32, high: u32, n: nat) {
    low + WORD * high == 8 * n % 0x1_0000_0000_0000_0000
  }

  lemma CountsBecause(low: u32, high: u32, n: nat, k: int)
    requires low + WORD * high + 0x1_0000_0000_0000_0000 * k == 8 * n
    ensures Counts(low, high, n)
  {
  }

  /** The low word after len more bytes, and the high word without the carry. */
  function LowAfter(low: u32, len: nat): u32 {
    Plus(low, 8 * len % WORD)
  }

  function HighAfter(low: u32, high: u32, len: nat): u32
    requires len < WORD
  {
    Plus(if LowAfter(low, len) < low then Plus(high, 1) else high, len / 0x2000_0000)
  }

  /** The truncating shift, the carry test and the `len >> 29` term add up to exactly 8 * len. */
  lemma CounterStep(low: u32, high: u32, n: nat, len: nat)
    requires Counts(low, high, n) && len < WORD
    ensures Counts(LowAfter(low, len), HighAfter(low, high, len), n + len)
  {
    var q, r := len / 0x2000_0000, len % 0x2000_0000;
    assert 8 * len % WORD == 8 * r;
    var carry := if LowAfter(low, len) < low then 1 else 0;
    assert low + 8 * r == LowAfter(low, len) + WORD * carry;
    var e := (high + carry) / WORD + (Plus(high, carry) + q) / WORD;
    assert high + carry + q == HighAfter(low, high, len) + WORD * e;
    CountsBecause(LowAfter(low, len), HighAfter(low, high, len), n + len, 8 * n / 0x1_0000_0000_0000_0000 + e);
  }

  /** The pending count survives any wraparound of the counter. */
  lemma CounterPending(low: u32, high: u32, n: nat)
    requires Counts(low, high, n)
    ensures low / 8 % 64 == n % 64
  {
    var wraps := 8 * n / 0x1_0000_0000_0000_0000;
    var q := WORD * wraps + high;
    assert low == 8 * (n - 0x2000_0000 * q);
    assert low / 8 == n - 64 * (0x80_0000 * q);
    ShiftedModulo(n, 0x80_0000 * q);
  }

  lemma ShiftedModulo(n: int, q: int)
    ensures (n - 64 * q) % 64 == n % 64
  {
  }

  lemma CounterBytes(low: u32, high: u32, n: nat)
    requires Counts(low, high, n)
    ensures Le32(low) + Le32(high) == LengthBytes(n)
  {
    hide Le32;
    var bits := low + WORD * high;
    assert bits % WORD == low && bits / WORD == high;
  }

  // ---- the last blocks ----

  lemma StateOfPrefixOfPad(m: bytes, n: nat)
    requires 64 * n <= |m|
    ensures |m| <= |Pad(m)| && StateAfter(Pad(m), n) == StateAfter(m, n)
  {
    hide StateAfter;
    var tail := [0x80 as char] + Zeros(PadZeros(|m|)) + LengthBytes(|m|);
    assert Pad(m) == m + tail;
    StateOfPrefix(m, tail, n);
  }

  lemma LastState(p: bytes)
    requires |p| % 64 == 0 && 64 <= |p|
    ensures StateAfter(p, |p| / 64) == Compress(StateAfter(p, |p| / 64 - 1), BlockWords(p[|p| - 64..]))
  {
    hide Compress, BlockWords;
    assert p[64 * (|p| / 64 - 1)..64 * (|p| / 64)] == p[|p| - 64..];
  }

  // ---- the context ----

  /** `struct MD5Context`, with the message taken in since the last `MD5Init` as a ghost. */
  class MD5Context {
    const machine: Machine
    const buf: array<u32>
    const bits: array<u32>
    const input: array<byte>
    ghost var message: bytes

    ghost predicate Shape() {
      buf.Length == 4 && bits.Length == 2 && input.Length == 64 && buf != bits
    }

    ghost function State(): Regs
      requires Shape()
      reads buf
    {
      Regs(buf[0], buf[1], buf[2], buf[3])
    }

    /** The chaining words are those of all full blocks, the head of `input` holds the rest, and the
        counter is the length. */
    ghost predicate Valid()
      reads this, buf, bits, input
    {
      && Shape()
      && Counts(bits[0], bits[1], |message|)
      && State() == StateAfter(message, |message| / 64)
      && input[..|message| % 64] == message[|message| / 64 * 64..]
    }

    constructor (machine: Machine)
      ensures Shape() && this.machine == machine && fresh(buf) && fresh(bits) && fresh(input)
    {
      this.machine := machine;
      buf := new u32[4];
      bits := new u32[2];
      input := new byte[64];
    }

    method Init()
      requires Shape()
      modifies this, buf, bits
      ensures Valid() && message == []
    {
      buf[0], buf[1], buf[2], buf[3] := 0x67452301, 0xefcdab89, 0x98badcfe, 0x10325476;
      bits[0], bits[1] := 0, 0;
      message := [];
    }

    /** `byteReverse(ctx->in, 16); MD5Transform(ctx->buf, (uint32 *) ctx->in)`. */
    method ProcessBlock()
      requires Shape()
      modifies buf, input
      ensures State() == Compress(old(State()), BlockWords(old(input[..])))
    {
      ghost var before := input[..];
      ByteReverse(machine, input, 16);
      LoadWordsAfterReverse(machine, before, input[..]);
      Transform(buf, LoadWords(machine, input[..]));
    }

    /** The counter part of MD5Update. */
    method AddLength(len: nat, ghost n: nat)
      requires Shape() && len < WORD && Counts(bits[0], bits[1], n)
      modifies bits
      ensures Counts(bits[0], bits[1], n + len)
    {
      CounterStep(bits[0], bits[1], n, len);
      var t := bits[0];
      bits[0] := Plus(t, 8 * len % WORD);
      if bits[0] < t {
        bits[1] := Plus(bits[1], 1);
      }
      bits[1] := Plus(bits[1], len / 0x2000_0000);
    }

    /** Fills `input` from position p on with what is missing of block n of m, and processes it. */
    method TakeBlock(p: nat, piece: bytes, ghost m: bytes, ghost n: nat)
      requires Shape() && p + |piece| == 64
      requires 64 * (n + 1) <= |m| && State() == StateAfter(m, n)
      requires input[..p] + piece == m[64 * n..64 * (n + 1)]
      modifies buf, input
      ensures State() == StateAfter(m, n + 1)
    {
      hide Compress, BlockWords;
      CopyInto(input, p, piece);
      assert input[..] == m[64 * n..64 * (n + 1)];
      ProcessBlock();
    }

    /** Leaves what does not fill a block in `input`. */
    method TakeRest(p: nat, piece: bytes, ghost m: bytes, ghost n: nat)
      requires Shape() && p + |piece| < 64 && |m| == 64 * n + p + |piece|
      requires State() == StateAfter(m, n) && Counts(bits[0], bits[1], |m|)
      requires input[..p] + piece == m[64 * n..]
      modifies this, input
      ensures Valid() && message == m
    {
      hide Counts, StateAfter;
      CopyInto(input, p, piece);
      message := m;
    }

    /** The loop over whole blocks, from position `from0` of the piece, and what is left after it. */
    method TakeBlocks(data: bytes, from0: nat, ghost m: bytes, ghost n0: nat)
      requires Shape() && from0 <= |data| && |m| == 64 * n0 + |data| - from0
      requires data[from0..] == m[64 * n0..]
      requires State() == StateAfter(m, n0) && Counts(bits[0], bits[1], |m|)
      modifies this, buf, input
      ensures Valid() && message == m
    {
      hide Counts, StateAfter;
      ghost var n := n0;
      var from, len := from0, |data| - from0;
      while len >= 64
        invariant 0 <= len && from0 <= from && n0 <= n
        invariant from + len == |data| && 64 * n + len == |m| && data[from..] == m[64 * n..]
        invariant State() == StateAfter(m, n) && Counts(bits[0], bits[1], |m|)
      {
        assert data[from..from + 64] == m[64 * n..64 * (n + 1)];
        TakeBlock(0, data[from..from + 64], m, n);
        n := n + 1;
        from := from + 64;
        len := len - 64;
      }
      TakeRest(0, data[from..from + len], m, n);
    }

    method Update(data: bytes)
      requires Valid() && |data| < WORD
      modifies this, buf, bits, input
      ensures Valid() && message == old(message) + data
    {
      hide Counts, StateAfter;
      ghost var m := message + data;
      ghost var n := |message| / 64;
      var len := |data|;
      var t := bits[0];
      CounterPending(bits[0], bits[1], |message|);
      AddLength(len, |message|);
      StateOfPrefix(message, data, n);
      t := t / 8 % 64;
      assert input[..t] == m[64 * n..64 * n + t];
      if t != 0 {
        var p := t;
        t := 64 - t;
        if len < t {
          TakeRest(p, data, m, n);
          return;
        }
        TakeBlock(p, data[..t], m, n);
        assert data[t..] == m[64 * (n + 1)..];
        TakeBlocks(data, t, m, n + 1);
      } else {
        TakeBlocks(data, 0, m, n);
      }
    }

    /** The last block: fourteen words out of `input`, then the two counter words as they are. */
    method TakeLengthBlock(ghost n: nat)
      requires Shape() && Counts(bits[0], bits[1], n)
      modifies buf, input
      ensures State() == Compress(old(State()), BlockWords(old(input[..56]) + LengthBytes(n)))
    {
      hide Counts, Compress, Source;
      ghost var before := input[..];
      CounterBytes(bits[0], bits[1], n);
      ByteReverse(machine, input, 14);
      CopyInto(input, 56, machine.Store(bits[0]) + machine.Store(bits[1]));
      LoadLengthBlock(machine, before, input[..], bits[0], bits[1]);
      Transform(buf, LoadWords(machine, input[..]));
    }

    /** `byteReverse(ctx->buf, 4); memcpy(digest, ctx->buf, 16)`. */
    method Emit(digest: array<byte>)
      requires Shape() && digest.Length == 16
      modifies digest
      ensures digest[..] == Output(State())
    {
      hide Source, Le32, Machine.Store;
      var memory := machine.Store(buf[0]) + machine.Store(buf[1]) + machine.Store(buf[2]) + machine.Store(buf[3]);
      CopyInto(digest, 0, memory);
      assert digest[..] == memory;
      ByteReverse(machine, digest, 4);
      ReverseOfStores(machine, State(), memory, digest[..]);
    }

    /** Writes the 0x80 byte and the zeros, with a block of their own when fewer than 8 bytes are
        left for the length. */
    method TakePadding(ghost m: bytes, ghost n: nat)
      requires Shape() && Counts(bits[0], bits[1], |m|)
      requires n == |m| / 64 && State() == StateAfter(m, n) && input[..|m| % 64] == m[64 * n..]
      modifies buf, input
      ensures State() == StateAfter(Pad(m), |Pad(m)| / 64 - 1)
      ensures input[..56] + LengthBytes(|m|) == Pad(m)[|Pad(m)| - 64..]
    {
      hide Counts, StateAfter, Pad, LengthBytes;
      ghost var pending := |m| % 64;
      CounterPending(bits[0], bits[1], |m|);
      StateOfPrefixOfPad(m, n);
      var count := bits[0] / 8 % 64;
      input[count] := 0x80 as char;
      assert input[..count + 1] == m[64 * n..] + [0x80 as char];
      var p := count + 1;
      count := 64 - 1 - count;
      if count < 8 {
        PadInTwoBlocks(m, n, pending);
        TakeBlock(p, Zeros(count), Pad(m), n);
        CopyInto(input, 0, Zeros(56));
      } else {
        PadInOneBlock(m, n, pending);
        CopyInto(input, p, Zeros(count - 8));
      }
    }

    /** MD5Final: the digest of everything taken in, and a context of zeros. */
    method Final(digest: array<byte>)
      requires Valid() && digest.Length == 16 && digest != input
      modifies this, buf, bits, input, digest
      ensures digest[..] == Digest(old(message))
      ensures buf[..] == [0, 0, 0, 0] && bits[..] == [0, 0] && input[..] == Zeros(64)
    {
      hide Counts, StateAfter, Pad, LengthBytes, Compress, BlockWords;
      ghost var m := message;
      TakePadding(m, |m| / 64);
      TakeLengthBlock(|m|);
      LastState(Pad(m));
      Emit(digest);
      Wipe();
    }

    /** `memset(ctx, 0, sizeof(*ctx))`. */
    method Wipe()
      requires Shape()
      modifies buf, bits, input
      ensures buf[..] == [0, 0, 0, 0] && bits[..] == [0, 0] && input[..] == Zeros(64)
    {
      buf[0], buf[1], buf[2], buf[3] := 0, 0, 0, 0;
      bits[0], bits[1] := 0, 0;
      CopyInto(input, 0, Zeros(64));
    }
  }

  /** The one-call form. */
  method DigestAtOnce(machine: Machine, data: bytes, digest: array<byte>)
    requires |data| < WORD && digest.Length == 16
    modifies digest
    ensures digest[..] == Digest(data)
  {
    hide Digest, MD5Context.Valid;
    var ctx := new MD5Context(machine);
    ctx.Init();
    ctx.Update(data);
    assert ctx.message == data;
    ctx.Final(digest);
  }

  /** Every way of cutting a message into updates, on every machine, gives the digest of the whole. */
  method DigestInPieces(machine: Machine, pieces: seq<bytes>) returns (d: bytes)
    requires forall i :: 0 <= i < |pieces| ==> |pieces[i]| < WORD
    ensures d == Digest(Concat(pieces))
  {
    hide Digest, MD5Context.Valid;
    var digest := new byte[16];
    var ctx := new MD5Context(machine);
    ctx.Init();
    for i := 0 to |pieces|
      invariant ctx.Valid() && ctx.message == Concat(pieces[..i])
    {
      ctx.Update(pieces[i]);
      ConcatNext(pieces, i);
    }
    assert pieces[..|pieces|] == pieces;
    ctx.Final(digest);
    d := digest[..];
  }
}
