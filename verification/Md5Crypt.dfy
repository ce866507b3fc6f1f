/** lib/md5_crypt.c: the "$1$" password hash. */
module Md5Crypt {
  import opened CBytes
  import opened Md5Rfc
  import opened Md5

  const MAGIC: bytes := "$1$"

  const ITOA64: bytes := "./" + DIGITS + UPPER + LOWER

  // ---- the salt ----

  /** The characters before the first '$', at most n of them. */
  function UpToDollar(s: bytes, n: nat): (r: bytes)
    ensures |r| <= n && '$' !in r && r <= s
  {
    Take(Before(s, '$'), n)
  }

  lemma UpToDollarIs(s: bytes, n: nat, r: bytes)
    requires r <= s && |r| <= n && '$' !in r
    requires |r| == |s| || |r| == n || s[|r|] == '$'
    ensures UpToDollar(s, n) == r
  {
    var t := Before(s, '$');
    forall i | 0 <= i < |r| ensures s[i] != '$' {
      assert s[i] == r[i] && r[i] in r;
    }
    forall i | 0 <= i < |t| ensures s[i] != '$' {
      assert s[i] == t[i] && t[i] in t;
    }
  }

  function SkipMagic(s: bytes): bytes {
    if MAGIC <= s then s[|MAGIC|..] else s
  }

  function TrueSalt(salt: bytes): bytes {
    UpToDollar(SkipMagic(salt), 8)
  }

  // ---- the digest, over whole messages ----

  /** n bytes of the digest d repeated. */
  function Stretch(d: bytes, n: int): bytes
    requires |d| == 16
  {
    if n <= 0 then [] else d[..if n > 16 then 16 else n] + Stretch(d, n - 16)
  }

  /** One byte per binary digit of n, lowest first: NUL for a one, c for a zero. */
  function BitWalk(n: nat, c: byte): bytes {
    if n == 0 then [] else [if n % 2 == 1 then NUL else c] + BitWalk(n / 2, c)
  }

  function InnerDigest(pw: bytes, salt: bytes): (d: bytes)
    ensures |d| == 16
  {
    Digest(pw + salt + pw)
  }

  function FirstMessage(pw: bytes, salt: bytes): bytes {
    pw + MAGIC + salt + Stretch(InnerDigest(pw, salt), |pw|) + BitWalk(|pw|, if pw == [] then NUL else pw[0])
  }

  function FirstDigest(pw: bytes, salt: bytes): (d: bytes)
    ensures |d| == 16
  {
    Digest(FirstMessage(pw, salt))
  }

  /** The message of round i. */
  function RoundMessage(pw: bytes, salt: bytes, d: bytes, i: nat): bytes {
    (if i % 2 == 1 then pw else d) + (if i % 3 != 0 then salt else [])
    + (if i % 7 != 0 then pw else []) + (if i % 2 == 1 then d else pw)
  }

  function AfterRounds(pw: bytes, salt: bytes, d: bytes, n: nat): (r: bytes)
    requires |d| == 16
    ensures |r| == 16
  {
    if n == 0 then d else Digest(RoundMessage(pw, salt, AfterRounds(pw, salt, d, n - 1), n - 1))
  }

  const ROUNDS := 1000

  function FinalDigest(pw: bytes, salt: bytes): (d: bytes)
    ensures |d| == 16
  {
    AfterRounds(pw, salt, FirstDigest(pw, salt), ROUNDS)
  }

  // ---- printing ----

  function To64(v: nat, n: nat): (s: bytes)
    ensures |s| == n
  {
    if n == 0 then [] else [ITOA64[v % 64]] + To64(v / 64, n - 1)
  }

  /** Three digest bytes as one number. */
  function Triple(high: byte, middle: byte, low: byte): nat {
    0x1_0000 * high as int + 0x100 * middle as int + low as int
  }

  function Pack(d: bytes): (s: bytes)
    requires |d| == 16
    ensures |s| == 22
  {
    To64(Triple(d[0], d[6], d[12]), 4) + To64(Triple(d[1], d[7], d[13]), 4)
    + To64(Triple(d[2], d[8], d[14]), 4) + To64(Triple(d[3], d[9], d[15]), 4)
    + To64(Triple(d[4], d[10], d[5]), 4) + To64(d[11] as int, 2)
  }

  function Setting(salt: bytes): bytes {
    MAGIC + TrueSalt(salt) + "$"
  }

  function Hash(pw: bytes, salt: bytes): bytes {
    Setting(salt) + Pack(FinalDigest(pw, TrueSalt(salt)))
  }

  // ---- what the pieces are ----

  /** The stretch loop adds exactly n bytes of the digest repeated over and over. */
  lemma {:induction false} StretchAt(d: bytes, n: nat, k: nat)
    requires |d| == 16 && k < n
    ensures |Stretch(d, n)| == n && Stretch(d, n)[k] == d[k % 16]
  {
    if n <= 16 {
    } else {
      StretchAt(d, n - 16, if k >= 16 then k - 16 else 0);
    }
  }

  function Pow2(k: nat): (p: nat)
    ensures 0 < p
  {
    if k == 0 then 1 else 2 * Pow2(k - 1)
  }

  lemma HalvesOfPow2(n: nat, k: nat)
    ensures n / Pow2(k + 1) == n / 2 / Pow2(k)
    ensures Pow2(k + 1) <= n <==> Pow2(k) <= n / 2
  {
    var p := Pow2(k);
    var q, r := n / 2 / p, n / 2 % p;
    assert n / 2 == p * q + r;
    var low := 2 * r + n % 2;
    assert n == 2 * p * q + low && 0 <= low < 2 * p;
    QuotientIs(n, 2 * p, q, low);
  }

  lemma QuotientIs(n: nat, m: nat, q: nat, r: nat)
    requires n == m * q + r && r < m
    ensures n / m == q
  {
    var d := q - n / m;
    assert m * d == n % m - r;
    MultipleIsFar(m, d);
  }

  lemma MultipleIsFar(m: int, d: int)
    requires 0 <= m
    ensures 1 <= d ==> m <= m * d
    ensures d <= -1 ==> m * d <= -m
  {
    assert m * d == m + m * (d - 1) == -m + m * (d + 1);
  }

  /** The bit-walk adds one byte for every binary digit of n, which tells the digit. */
  lemma {:induction false} BitWalkAt(n: nat, c: byte, k: nat)
    ensures k < |BitWalk(n, c)| <==> Pow2(k) <= n
    ensures k < |BitWalk(n, c)| ==> BitWalk(n, c)[k] == if n / Pow2(k) % 2 == 1 then NUL else c
  {
    if n == 0 || k == 0 {
    } else {
      BitWalkAt(n / 2, c, k - 1);
      HalvesOfPow2(n, k - 1);
    }
  }

  // ---- reading the digits back ----

  /** The value of one digit. */
  function Value(c: byte): nat {
    if c == '.' then 0 else if c == '/' then 1
    else if '0' <= c <= '9' then c as int - '0' as int + 2
    else if 'A' <= c <= 'Z' then c as int - 'A' as int + 12
    else if 'a' <= c then c as int - 'a' as int + 38 else 0
  }

  lemma ValueOfDigit(k: nat)
    requires k < 64
    ensures Value(ITOA64[k]) == k && ITOA64[k] != NUL
  {
    hide DIGITS, UPPER, LOWER;
    assert |DIGITS| == 10 && |UPPER| == |LOWER| == 26 by { AlphabetSizes(); }
    if 2 <= k < 12 {
      DigitAt(k - 2);
      assert ITOA64[k] == DIGITS[k - 2];
    } else if 12 <= k < 38 {
      UpperAt(k - 12);
      assert ITOA64[k] == UPPER[k - 12];
    } else if 38 <= k {
      LowerAt(k - 38);
      assert ITOA64[k] == LOWER[k - 38];
    }
  }

  function From64(s: bytes): nat {
    if s == [] then 0 else Value(s[0]) + 64 * From64(s[1..])
  }

  function Pow64(n: nat): nat {
    if n == 0 then 1 else 64 * Pow64(n - 1)
  }

  /** n digits hold every number below 64^n, and read back as that number. */
  lemma {:induction false} From64OfTo64(v: nat, n: nat)
    ensures IsCString(To64(v, n))
    ensures v < Pow64(n) ==> From64(To64(v, n)) == v
  {
    hide ITOA64, Value;
    if n == 0 {
    } else {
      ValueOfDigit(v % 64);
      From64OfTo64(v / 64, n - 1);
    }
  }

  lemma Pow64Values()
    ensures Pow64(2) == 0x1000 && Pow64(4) == 0x100_0000
  {
    assert Pow64(1) == 64;
    assert Pow64(3) == 64 * Pow64(2);
  }

  lemma TripleInjective(a: byte, b: byte, c: byte, a': byte, b': byte, c': byte)
    requires Triple(a, b, c) == Triple(a', b', c')
    ensures a == a' && b == b' && c == c'
  {
    assert a as int == a' as int && b as int == b' as int && c as int == c' as int;
  }

  /** Each group of four digits gives its three bytes back. */
  lemma GroupInjective(a: byte, b: byte, c: byte, a': byte, b': byte, c': byte)
    requires To64(Triple(a, b, c), 4) == To64(Triple(a', b', c'), 4)
    ensures a == a' && b == b' && c == c'
  {
    Pow64Values();
    From64OfTo64(Triple(a, b, c), 4);
    From64OfTo64(Triple(a', b', c'), 4);
    TripleInjective(a, b, c, a', b', c');
  }

  lemma PackGroups(d: bytes)
    requires |d| == 16
    ensures Pack(d)[0..4] == To64(Triple(d[0], d[6], d[12]), 4)
    ensures Pack(d)[4..8] == To64(Triple(d[1], d[7], d[13]), 4)
    ensures Pack(d)[8..12] == To64(Triple(d[2], d[8], d[14]), 4)
    ensures Pack(d)[12..16] == To64(Triple(d[3], d[9], d[15]), 4)
    ensures Pack(d)[16..20] == To64(Triple(d[4], d[10], d[5]), 4)
    ensures Pack(d)[20..22] == To64(d[11] as int, 2)
  {
    hide To64, Triple;
    var g1, g2 := To64(Triple(d[0], d[6], d[12]), 4), To64(Triple(d[1], d[7], d[13]), 4);
    var g3, g4 := To64(Triple(d[2], d[8], d[14]), 4), To64(Triple(d[3], d[9], d[15]), 4);
    var g5, g6 := To64(Triple(d[4], d[10], d[5]), 4), To64(d[11] as int, 2);
    assert Pack(d) == g1 + g2 + g3 + g4 + g5 + g6;
  }

  /** The 22 characters determine all 16 digest bytes. */
  lemma PackInjective(d: bytes, e: bytes)
    requires |d| == |e| == 16 && Pack(d) == Pack(e)
    ensures d == e
  {
    hide Pack, To64, Triple, From64, Pow64;
    PackGroups(d);
    PackGroups(e);
    GroupInjective(d[0], d[6], d[12], e[0], e[6], e[12]);
    GroupInjective(d[1], d[7], d[13], e[1], e[7], e[13]);
    GroupInjective(d[2], d[8], d[14], e[2], e[8], e[14]);
    GroupInjective(d[3], d[9], d[15], e[3], e[9], e[15]);
    GroupInjective(d[4], d[10], d[5], e[4], e[10], e[5]);
    Pow64Values();
    From64OfTo64(d[11] as int, 2);
    From64OfTo64(e[11] as int, 2);
    assert d[11] as int == e[11] as int;
  }

  lemma PackIsCString(d: bytes)
    requires |d| == 16
    ensures IsCString(Pack(d))
  {
    hide To64, Triple;
    From64OfTo64(Triple(d[0], d[6], d[12]), 4);
    From64OfTo64(Triple(d[1], d[7], d[13]), 4);
    From64OfTo64(Triple(d[2], d[8], d[14]), 4);
    From64OfTo64(Triple(d[3], d[9], d[15]), 4);
    From64OfTo64(Triple(d[4], d[10], d[5]), 4);
    From64OfTo64(d[11] as int, 2);
  }

  lemma HashIsCString(pw: bytes, salt: bytes)
    requires IsCString(salt)
    ensures IsCString(Hash(pw, salt))
  {
    hide FinalDigest, Pack, UpToDollar;
    var s := TrueSalt(salt);
    assert forall i :: 0 <= i < |s| ==> s[i] in salt by {
      assert s <= SkipMagic(salt);
    }
    PackIsCString(FinalDigest(pw, s));
  }

  // ---- a hash is its own salt ----

  /** The salt read from a hash is the salt the hash was made with. */
  lemma TrueSaltOfHash(pw: bytes, salt: bytes)
    ensures TrueSalt(Hash(pw, salt)) == TrueSalt(salt)
  {
    hide FinalDigest, Pack, UpToDollar;
    var rest := SkipMagic(Hash(pw, salt));
    assert Hash(pw, salt)[..|MAGIC|] == MAGIC;
    assert rest == TrueSalt(salt) + "$" + Pack(FinalDigest(pw, TrueSalt(salt)));
    UpToDollarIs(rest, 8, TrueSalt(salt));
  }

  /** Hashing with a hash as the salt gives the hash again. */
  lemma HashIsFixpoint(pw: bytes, salt: bytes)
    ensures Hash(pw, Hash(pw, salt)) == Hash(pw, salt)
  {
    hide FinalDigest, Pack, TrueSalt;
    TrueSaltOfHash(pw, salt);
  }

  /** Two passwords have the same hash under a salt exactly when their final digests agree. */
  lemma HashesEqual(p: bytes, q: bytes, salt: bytes)
    ensures Hash(p, salt) == Hash(q, salt)
       <==> FinalDigest(p, TrueSalt(salt)) == FinalDigest(q, TrueSalt(salt))
  {
    hide FinalDigest, Pack, TrueSalt;
    var d, e := FinalDigest(p, TrueSalt(salt)), FinalDigest(q, TrueSalt(salt));
    if Hash(p, salt) == Hash(q, salt) {
      assert Hash(p, salt)[|Setting(salt)|..] == Pack(d) && Hash(q, salt)[|Setting(salt)|..] == Pack(e);
      PackInjective(d, e);
    }
  }

  // ---- the code ----

  lemma To64Step(v: nat, n: nat)
    requires n > 0
    ensures |ITOA64| == 64 && To64(v, n) == [ITOA64[v % 64]] + To64(v / 64, n - 1)
  {
    assert |ITOA64| == 64;
    hide ITOA64;
  }

  lemma MoveDigit(head: bytes, digit: byte, tail: bytes)
    ensures head + ([digit] + tail) == (head + [digit]) + tail
  {
  }

  /** `to64`: the digits of v, lowest first. */
  method To64Into(s: array<byte>, at: nat, v0: nat, n0: nat)
    requires at + n0 <= s.Length
    modifies s
    ensures s[..] == old(s[..at]) + To64(v0, n0) + old(s[at + n0..])
  {
    hide To64, ITOA64;
    var p, v, n := at, v0, n0;
    while n > 0
      invariant 0 <= n <= n0 && p == at + n0 - n && 0 <= v
      invariant s[..p] + To64(v, n) == old(s[..at]) + To64(v0, n0)
      invariant s[at + n0..] == old(s[at + n0..])
    {
      To64Step(v, n);
      MoveDigit(s[..p], ITOA64[v % 64], To64(v / 64, n - 1));
      s[p] := ITOA64[v % 64];
      assert s[..p + 1] == s[..p] + [ITOA64[v % 64]];
      v := v / 64;
      p := p + 1;
      n := n - 1;
    }
    assert s[..p] + To64(v, n) == s[..p];
    assert s[..] == s[..p] + s[p..];
  }

  /** The length of the true salt, found by moving a pointer along it. */
  method SaltEnd(salt: bytes, sp: nat) returns (ep: nat)
    requires sp <= |salt|
    ensures sp <= ep <= |salt| && salt[sp..ep] == UpToDollar(salt[sp..], 8)
  {
    ep := sp;
    while ep < |salt| && salt[ep] != '$' && ep < sp + 8
      invariant sp <= ep <= |salt| && ep <= sp + 8
      invariant '$' !in salt[sp..ep]
    {
      ep := ep + 1;
    }
    UpToDollarIs(salt[sp..], 8, salt[sp..ep]);
  }

  /** The updates that stretch the inner digest over the length of the password. */
  method UpdateStretched(ctx: MD5Context, final: array<byte>, length: nat)
    requires ctx.Valid() && final.Length == 16 && final != ctx.input
    modifies ctx, ctx.buf, ctx.bits, ctx.input
    ensures ctx.Valid() && ctx.message == old(ctx.message) + Stretch(final[..], length)
  {
    hide MD5Context.Valid;
    ghost var d := final[..];
    var pl: int := length;
    while pl > 0
      invariant ctx.Valid() && final[..] == d
      invariant ctx.message + Stretch(d, pl) == old(ctx.message) + Stretch(d, length)
    {
      ctx.Update(final[..if pl > 16 then 16 else pl]);
      pl := pl - 16;
    }
  }

  /** One byte for every binary digit of the length. */
  method UpdateBits(ctx: MD5Context, final: array<byte>, pw: bytes)
    requires ctx.Valid() && final.Length == 16 && final != ctx.input && final[0] == NUL
    modifies ctx, ctx.buf, ctx.bits, ctx.input
    ensures ctx.Valid()
    ensures ctx.message == old(ctx.message) + BitWalk(|pw|, if pw == [] then NUL else pw[0])
  {
    hide MD5Context.Valid;
    ghost var c := if pw == [] then NUL else pw[0];
    var j, i := 0, |pw|;
    while i != 0
      invariant 0 <= i && (i != 0 ==> pw != []) && ctx.Valid() && final[0] == NUL
      invariant ctx.message + BitWalk(i, c) == old(ctx.message) + BitWalk(|pw|, c)
    {
      if i % 2 == 1 {
        ctx.Update([final[j]]);
      } else {
        ctx.Update([pw[j]]);
      }
      i := i / 2;
    }
  }

  /** The two contexts and the digest buffer share no memory. */
  ghost predicate Apart(ctx: MD5Context, ctx1: MD5Context, final: array<byte>) {
    && final.Length == 16 && final != ctx.input && final != ctx1.input
    && ctx != ctx1 && ctx.buf != ctx1.buf && ctx.bits != ctx1.bits && ctx.input != ctx1.input
    && ctx.buf != ctx1.bits && ctx.bits != ctx1.buf
  }

  method ComputeInner(ctx1: MD5Context, pw: bytes, salt: bytes, final: array<byte>)
    requires ctx1.Shape() && final.Length == 16 && final != ctx1.input
    requires |pw| < WORD && |salt| <= 8
    modifies ctx1, ctx1.buf, ctx1.bits, ctx1.input, final
    ensures final[..] == InnerDigest(pw, salt)
  {
    hide MD5Context.Valid, Digest;
    ctx1.Init();
    ctx1.Update(pw);
    assert ctx1.message == pw;
    ctx1.Update(salt);
    ctx1.Update(pw);
    ctx1.Final(final);
  }

  /** Everything before the rounds: two contexts, of which the second gives the inner digest. */
  method ComputeFirst(ctx: MD5Context, ctx1: MD5Context, pw: bytes, salt: bytes, final: array<byte>)
    requires ctx.Shape() && ctx1.Shape() && Apart(ctx, ctx1, final)
    requires |pw| < WORD && |salt| <= 8
    modifies ctx, ctx.buf, ctx.bits, ctx.input, ctx1, ctx1.buf, ctx1.bits, ctx1.input, final
    ensures final[..] == FirstDigest(pw, salt)
  {
    hide MD5Context.Valid, Digest, Stretch, BitWalk;
    ctx.Init();
    ctx.Update(pw);
    assert ctx.message == pw;
    ctx.Update(MAGIC);
    ctx.Update(salt);
    ComputeInner(ctx1, pw, salt, final);
    UpdateStretched(ctx, final, |pw|);
    CopyInto(final, 0, Zeros(16));
    UpdateBits(ctx, final, pw);
    ctx.Final(final);
  }

  /** An update that is made on a condition. */
  method UpdateIf(ctx: MD5Context, needed: bool, piece: bytes)
    requires ctx.Valid() && |piece| < WORD
    modifies ctx, ctx.buf, ctx.bits, ctx.input
    ensures ctx.Valid() && ctx.message == old(ctx.message) + if needed then piece else []
  {
    hide MD5Context.Valid;
    if needed {
      ctx.Update(piece);
    }
  }

  method RunRound(ctx1: MD5Context, pw: bytes, salt: bytes, final: array<byte>, i: nat)
    requires ctx1.Shape() && final.Length == 16 && final != ctx1.input
    requires |pw| < WORD && |salt| <= 8
    modifies ctx1, ctx1.buf, ctx1.bits, ctx1.input, final
    ensures final[..] == Digest(RoundMessage(pw, salt, old(final[..]), i))
  {
    hide MD5Context.Valid, Digest;
    ghost var d := final[..];
    ctx1.Init();
    if i % 2 == 1 {
      ctx1.Update(pw);
    } else {
      ctx1.Update(final[..]);
    }
    assert ctx1.message == if i % 2 == 1 then pw else d;
    UpdateIf(ctx1, i % 3 != 0, salt);
    UpdateIf(ctx1, i % 7 != 0, pw);
    if i % 2 == 1 {
      ctx1.Update(final[..]);
    } else {
      ctx1.Update(pw);
    }
    assert ctx1.message == RoundMessage(pw, salt, d, i);
    ctx1.Final(final);
  }

  method RunRounds(ctx1: MD5Context, pw: bytes, salt: bytes, final: array<byte>)
    requires ctx1.Shape() && final.Length == 16 && final != ctx1.input
    requires |pw| < WORD && |salt| <= 8
    modifies ctx1, ctx1.buf, ctx1.bits, ctx1.input, final
    ensures final[..] == AfterRounds(pw, salt, old(final[..]), ROUNDS)
  {
    hide Digest, RoundMessage;
    for i := 0 to ROUNDS
      invariant final[..] == AfterRounds(pw, salt, old(final[..]), i)
    {
      RunRound(ctx1, pw, salt, final, i);
    }
  }

  /** Adds one group of digits to those printed since position `at`. */
  method PrintGroup(passwd: array<byte>, at: nat, p: nat, v: nat, n: nat) returns (q: nat)
    requires at <= p && p + n <= passwd.Length
    modifies passwd
    ensures q == p + n && passwd[at..q] == old(passwd[at..p]) + To64(v, n)
    ensures passwd[..at] == old(passwd[..at])
  {
    hide To64;
    To64Into(passwd, p, v, n);
    q := p + n;
    assert passwd[..q] == old(passwd[..p]) + To64(v, n);
    assert passwd[at..q] == passwd[..q][at..];
    assert passwd[..at] == passwd[..q][..at];
  }

  /** The six groups, with the pointer moving along, and the terminator. */
  method Print(final: array<byte>, passwd: array<byte>, at: nat)
    requires final.Length == 16 && final != passwd && at + 22 < passwd.Length
    modifies passwd
    ensures passwd[..at + 23] == old(passwd[..at]) + Pack(final[..]) + [NUL]
  {
    hide To64, Triple;
    var p := PrintGroup(passwd, at, at, Triple(final[0], final[6], final[12]), 4);
    p := PrintGroup(passwd, at, p, Triple(final[1], final[7], final[13]), 4);
    p := PrintGroup(passwd, at, p, Triple(final[2], final[8], final[14]), 4);
    p := PrintGroup(passwd, at, p, Triple(final[3], final[9], final[15]), 4);
    p := PrintGroup(passwd, at, p, Triple(final[4], final[10], final[5]), 4);
    p := PrintGroup(passwd, at, p, final[11] as int, 2);
    assert passwd[at..p] == Pack(final[..]);
    passwd[p] := NUL;
    assert passwd[..at + 23] == passwd[..at] + passwd[at..p] + [NUL];
  }

  /** Prints the digest over the terminator of the string in `passwd`. */
  method AppendDigest(final: array<byte>, passwd: array<byte>)
    requires final.Length == 16 && final != passwd && |CStr(passwd[..])| + 22 < passwd.Length
    modifies passwd
    ensures CStr(passwd[..]) == old(CStr(passwd[..])) + Pack(final[..])
  {
    hide Pack;
    ghost var before := CStr(passwd[..]);
    var p := |CStr(passwd[..])|;
    Print(final, passwd, p);
    ghost var after := before + Pack(final[..]);
    assert passwd[..p + 23] == after + [NUL];
    assert passwd[..p + 22] == passwd[..p + 23][..p + 22] == after;
    assert passwd[p + 22] == passwd[..p + 23][p + 22];
    PackIsCString(final[..]);
    CStrIs(passwd[..], after);
  }

  /** The part of the salt argument that counts: `sp` with length `ep - sp`. */
  method RefineSalt(salt: bytes) returns (trueSalt: bytes)
    requires IsCString(salt)
    ensures trueSalt == TrueSalt(salt) && IsCString(trueSalt) && |trueSalt| <= 8
  {
    var sp := 0;
    if MAGIC <= salt {
      sp := sp + |MAGIC|;
    }
    var ep := SaltEnd(salt, sp);
    trueSalt := salt[sp..ep];
    assert forall i :: 0 <= i < |trueSalt| ==> trueSalt[i] == salt[sp + i];
  }

  method WriteSetting(passwd: array<byte>, trueSalt: bytes)
    requires passwd.Length == 120 && IsCString(trueSalt) && |trueSalt| <= 8
    modifies passwd
    ensures CStr(passwd[..]) == MAGIC + trueSalt + "$"
  {
    Put(passwd, MAGIC);
    Append(passwd, trueSalt);
    Append(passwd, "$");
  }

  /** The digest that is printed, with both contexts local. */
  method ComputeFinal(machine: Machine, pw: bytes, trueSalt: bytes, final: array<byte>)
    requires final.Length == 16 && |pw| < 0x8000_0000 && |trueSalt| <= 8
    modifies final
    ensures final[..] == FinalDigest(pw, trueSalt)
  {
    hide FirstDigest, AfterRounds, MD5Context.Valid;
    var ctx := new MD5Context(machine);
    var ctx1 := new MD5Context(machine);
    ComputeFirst(ctx, ctx1, pw, trueSalt, final);
    RunRounds(ctx1, pw, trueSalt, final);
  }

  /** The whole of `crypt_md5`, on any machine. */
  method CryptMd5(machine: Machine, pw: bytes, salt: bytes) returns (passwd: array<byte>)
    requires IsCString(salt) && |pw| < 0x8000_0000
    ensures fresh(passwd) && CStr(passwd[..]) == Hash(pw, salt)
  {
    hide FinalDigest, Pack, TrueSalt, CStr;
    passwd := new byte[120];
    var final := new byte[16];
    var trueSalt := RefineSalt(salt);
    ComputeFinal(machine, pw, trueSalt, final);
    WriteSetting(passwd, trueSalt);
    AppendDigest(final, passwd);
  }
}
