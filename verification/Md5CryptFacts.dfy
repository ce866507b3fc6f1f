/** What crypt_md5 takes in and prints, byte by byte, in the order of lib/md5_crypt.c. */
module Md5CryptFacts {
  import opened CBytes
  import opened Md5Rfc
  import opened Md5Crypt

  // ---- the salt ----

  /** After "$1$", or without it: up to eight characters before the first '$'. */
  lemma TrueSaltIs(s: bytes, rest: bytes)
    requires '$' !in s && |s| <= 8
    requires rest == [] || rest[0] == '$' || |s| == 8
    ensures TrueSalt("$1$" + s + rest) == s
    ensures !("$1$" <= s + rest) ==> TrueSalt(s + rest) == s
  {
    hide UpToDollar;
    assert ("$1$" + s + rest)[..3] == "$1$" && ("$1$" + s + rest)[3..] == s + rest;
    UpToDollarIs(s + rest, 8, s);
  }

  // ---- the digest before the rounds ----

  lemma InnerDigestIs(pw: bytes, salt: bytes, m: bytes)
    requires |m| == 2 * |pw| + |salt| && m[..|pw|] == pw && m[|pw|..|pw| + |salt|] == salt
    requires m[|pw| + |salt|..] == pw
    ensures InnerDigest(pw, salt) == Digest(m)
  {
    hide Digest;
    assert m == m[..|pw|] + m[|pw|..|pw| + |salt|] + m[|pw| + |salt|..];
  }

  /** Password, "$1$", salt, as many bytes of the inner digest as the password has, one byte for each binary
      digit of its length. */
  lemma FirstMessageIs(pw: bytes, salt: bytes)
    ensures var m, n := FirstMessage(pw, salt), |pw|;
            && |m| >= 2 * n + 3 + |salt|
            && m[..n] == pw && m[n..n + 3] == "$1$" && m[n + 3..n + 3 + |salt|] == salt
            && (forall k :: 0 <= k < n ==> m[n + 3 + |salt| + k] == InnerDigest(pw, salt)[k % 16])
            && m[2 * n + 3 + |salt|..] == BitWalk(n, if pw == [] then NUL else pw[0])
  {
    hide InnerDigest, Stretch, BitWalk;
    var d, n := InnerDigest(pw, salt), |pw|;
    var walk := BitWalk(n, if pw == [] then NUL else pw[0]);
    var head := pw + MAGIC + salt;
    StretchLength(d, n);
    assert FirstMessage(pw, salt) == head + Stretch(d, n) + walk;
    forall k | 0 <= k < n ensures FirstMessage(pw, salt)[|head| + k] == d[k % 16] {
      StretchAt(d, n, k);
    }
  }

  lemma StretchLength(d: bytes, n: nat)
    requires |d| == 16
    ensures |Stretch(d, n)| == n
  {
    if n > 0 {
      StretchAt(d, n, 0);
    }
  }

  lemma FirstDigestIs(pw: bytes, salt: bytes)
    ensures FirstDigest(pw, salt) == Digest(FirstMessage(pw, salt))
  {
  }

  // ---- the rounds ----

  /** An odd round begins with the password and ends with the digest, an even one the other way round; between
      them stand the salt unless 3 divides the number of the round, then the password unless 7 does. */
  lemma RoundMessageIs(pw: bytes, salt: bytes, d: bytes, i: nat)
    ensures i % 6 == 3 && i % 7 == 0 ==> RoundMessage(pw, salt, d, i) == pw + d
    ensures i % 6 == 0 && i % 7 == 0 ==> RoundMessage(pw, salt, d, i) == d + pw
    ensures i % 6 == 3 && i % 7 != 0 ==> RoundMessage(pw, salt, d, i) == pw + pw + d
    ensures i % 6 == 0 && i % 7 != 0 ==> RoundMessage(pw, salt, d, i) == d + pw + pw
    ensures (i % 6 == 1 || i % 6 == 5) && i % 7 == 0 ==> RoundMessage(pw, salt, d, i) == pw + salt + d
    ensures (i % 6 == 2 || i % 6 == 4) && i % 7 == 0 ==> RoundMessage(pw, salt, d, i) == d + salt + pw
    ensures (i % 6 == 1 || i % 6 == 5) && i % 7 != 0 ==> RoundMessage(pw, salt, d, i) == pw + salt + pw + d
    ensures (i % 6 == 2 || i % 6 == 4) && i % 7 != 0 ==> RoundMessage(pw, salt, d, i) == d + salt + pw + pw
  {
    ModuloSix(i);
    PlusNothing(pw);
    PlusNothing(d);
    PlusNothing(pw + salt);
    PlusNothing(d + salt);
  }

  lemma ModuloSix(i: nat)
    ensures i % 2 == 1 <==> i % 6 == 1 || i % 6 == 3 || i % 6 == 5
    ensures i % 3 == 0 <==> i % 6 == 0 || i % 6 == 3
  {
  }

  lemma PlusNothing(s: bytes)
    ensures s + [] == s
  {
  }

  lemma RoundMessageLength(pw: bytes, salt: bytes, d: bytes, i: nat)
    ensures |RoundMessage(pw, salt, d, i)|
         == |d| + |pw| + (if i % 3 != 0 then |salt| else 0) + if i % 7 != 0 then |pw| else 0
  {
  }

  /** How many bytes the first n rounds take in. */
  function TakenIn(pw: bytes, salt: bytes, d: bytes, n: nat): nat
    requires |d| == 16
  {
    if n == 0 then 0
    else TakenIn(pw, salt, d, n - 1) + |RoundMessage(pw, salt, AfterRounds(pw, salt, d, n - 1), n - 1)|
  }

  lemma {:induction false} TakenInIs(pw: bytes, salt: bytes, d: bytes, n: nat)
    requires |d| == 16
    ensures TakenIn(pw, salt, d, n) == 16 * n + (2 * n - (n + 6) / 7) * |pw| + (n - (n + 2) / 3) * |salt|
  {
    hide RoundMessage, AfterRounds;
    if n == 0 {
    } else {
      var k := n - 1;
      TakenInIs(pw, salt, d, k);
      RoundMessageLength(pw, salt, AfterRounds(pw, salt, d, k), k);
      Counts(k);
      OneMore(2 * k - (k + 6) / 7, |pw|);
      OneMore(k - (k + 2) / 3, |salt|);
    }
  }

  lemma Counts(k: nat)
    ensures 2 * (k + 1) - (k + 1 + 6) / 7 == 2 * k - (k + 6) / 7 + if k % 7 != 0 then 2 else 1
    ensures k + 1 - (k + 1 + 2) / 3 == k - (k + 2) / 3 + if k % 3 != 0 then 1 else 0
  {
    Sevenths(k / 7, k % 7);
    Thirds(k / 3, k % 3);
  }

  lemma Sevenths(q: nat, r: nat)
    requires r < 7
    ensures (7 * q + r + 7) / 7 == q + 1 && (7 * q + r + 6) / 7 == if r == 0 then q else q + 1
  {
  }

  lemma Thirds(q: nat, r: nat)
    requires r < 3
    ensures (3 * q + r + 3) / 3 == q + 1 && (3 * q + r + 2) / 3 == if r == 0 then q else q + 1
  {
  }

  lemma OneMore(a: int, b: int)
    ensures (a + 1) * b == a * b + b && (a + 2) * b == a * b + 2 * b
  {
  }

  /** All rounds together: a thousand digests, 1857 times the password and 666 times the salt. */
  lemma AllRoundsTakeIn(pw: bytes, salt: bytes)
    ensures TakenIn(pw, salt, FirstDigest(pw, salt), ROUNDS) == 16000 + 1857 * |pw| + 666 * |salt|
  {
    hide TakenIn, FirstDigest;
    TakenInIs(pw, salt, FirstDigest(pw, salt), ROUNDS);
  }

  /** The rounds are numbered from 0 to 999. */
  lemma FirstAndLastRound(pw: bytes, salt: bytes)
    ensures var d := FirstDigest(pw, salt);
            && AfterRounds(pw, salt, d, 1) == Digest(d + pw)
            && AfterRounds(pw, salt, d, 2) == Digest(pw + salt + pw + AfterRounds(pw, salt, d, 1))
            && FinalDigest(pw, salt) == Digest(pw + pw + AfterRounds(pw, salt, d, 999))
  {
    hide AfterRounds, RoundMessage, FirstDigest, Digest;
    var d := FirstDigest(pw, salt);
    NoRounds(pw, salt, d);
    NextRound(pw, salt, d, 0);
    NextRound(pw, salt, d, 1);
    NextRound(pw, salt, d, 999);
    RoundMessageIs(pw, salt, d, 0);
    RoundMessageIs(pw, salt, AfterRounds(pw, salt, d, 1), 1);
    RoundMessageIs(pw, salt, AfterRounds(pw, salt, d, 999), 999);
  }

  lemma NoRounds(pw: bytes, salt: bytes, d: bytes)
    requires |d| == 16
    ensures AfterRounds(pw, salt, d, 0) == d
  {
  }

  lemma NextRound(pw: bytes, salt: bytes, d: bytes, n: nat)
    requires |d| == 16
    ensures AfterRounds(pw, salt, d, n + 1) == Digest(RoundMessage(pw, salt, AfterRounds(pw, salt, d, n), n))
  {
    hide RoundMessage, Digest;
  }

  // ---- what is printed ----

  /** The order of the digits: dot, slash, figures, capitals, small letters. */
  lemma DigitsAre()
    ensures |ITOA64| == 64 && ITOA64[0] == '.' && ITOA64[1] == '/'
    ensures forall k :: 2 <= k < 12 ==> ITOA64[k] as int == '0' as int + k - 2
    ensures forall k :: 12 <= k < 38 ==> ITOA64[k] as int == 'A' as int + k - 12
    ensures forall k :: 38 <= k < 64 ==> ITOA64[k] as int == 'a' as int + k - 38
  {
    hide DIGITS, UPPER, LOWER;
    AlphabetSizes();
    forall k | 2 <= k < 12 ensures ITOA64[k] as int == '0' as int + k - 2 {
      DigitAt(k - 2);
      assert ITOA64[k] == DIGITS[k - 2];
    }
    forall k | 12 <= k < 38 ensures ITOA64[k] as int == 'A' as int + k - 12 {
      UpperAt(k - 12);
      assert ITOA64[k] == UPPER[k - 12];
    }
    forall k | 38 <= k < 64 ensures ITOA64[k] as int == 'a' as int + k - 38 {
      LowerAt(k - 38);
      assert ITOA64[k] == LOWER[k - 38];
    }
  }

  /** The first four groups of digits are bytes k, k + 6 and k + 12, then come bytes 4, 10 and 5, then byte 11
      alone; each group starts with its lowest digit. */
  lemma PackIs(d: bytes)
    requires |d| == 16
    ensures forall k :: 0 <= k < 4 ==>
              From64(Pack(d)[4 * k..4 * k + 4])
              == 0x1_0000 * d[k] as int + 0x100 * d[k + 6] as int + d[k + 12] as int
    ensures From64(Pack(d)[16..20]) == 0x1_0000 * d[4] as int + 0x100 * d[10] as int + d[5] as int
    ensures From64(Pack(d)[20..]) == d[11] as int
  {
    hide Pack, From64, To64, Pow64;
    PackGroups(d);
    GroupReads(d[0], d[6], d[12]);
    GroupReads(d[1], d[7], d[13]);
    GroupReads(d[2], d[8], d[14]);
    GroupReads(d[3], d[9], d[15]);
    GroupReads(d[4], d[10], d[5]);
    Pow64Values();
    From64OfTo64(d[11] as int, 2);
    assert Pack(d)[20..] == Pack(d)[20..22];
  }

  lemma GroupReads(a: byte, b: byte, c: byte)
    ensures From64(To64(Triple(a, b, c), 4)) == 0x1_0000 * a as int + 0x100 * b as int + c as int
  {
    hide From64, To64;
    Pow64Values();
    From64OfTo64(Triple(a, b, c), 4);
  }

  lemma HashParts(pw: bytes, salt: bytes)
    ensures Hash(pw, salt) == "$1$" + TrueSalt(salt) + "$" + Pack(FinalDigest(pw, TrueSalt(salt)))
  {
    hide TrueSalt, Pack, FinalDigest;
  }
}
