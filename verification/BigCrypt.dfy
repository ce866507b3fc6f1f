/** lib/bigcrypt.c: long passwords in segments of eight, each salted by the ciphertext before it. */
module BigCrypt {
  import opened CBytes

  // ---- libc's crypt ----

  /** The characters of a DES salt and of its output. */
  predicate IsSaltChar(c: byte) {
    '.' <= c <= '9' || 'A' <= c <= 'Z' || 'a' <= c <= 'z'
  }

  lemma SaltCharIs(c: byte)
    ensures IsSaltChar(c) <==> 'A' <= c <= 'Z' || 'a' <= c <= 'z' || '0' <= c <= '9' || c == '.' || c == '/'
  {
  }

  /** The same characters as lib/passwd_compare.c lists them. */
  const ALPHABET: bytes := UPPER + LOWER + DIGITS + "./"

  predicate LegalSalt(salt: bytes) {
    |salt| >= 2 && IsSaltChar(salt[0]) && IsSaltChar(salt[1])
  }

  /** Hashes and salts that begin with '$' name other methods than DES. */
  predicate IsPrefixed(salt: bytes) {
    salt != [] && salt[0] == '$'
  }

  function Drop(s: bytes, n: nat): bytes {
    if |s| <= n then [] else s[n..]
  }

  /** What DES `crypt` may return for this salt: the salt and eleven characters, or failure; always
      failure when the salt is not legal. */
  ghost predicate DesResult(salt: bytes, r: Option<bytes>) {
    r.Some? ==>
      && LegalSalt(salt) && |r.value| == SALT_SIZE + ESEGMENT_SIZE
      && r.value[0] == salt[0] && r.value[1] == salt[1]
      && forall i :: 0 <= i < |r.value| ==> IsSaltChar(r.value[i])
  }

  /** What any method returns has at least two characters, as the failure tokens have. */
  ghost predicate IsResult(r: Option<bytes>) {
    r.Some? ==> IsCString(r.value) && |r.value| >= SALT_SIZE
  }

  ghost predicate IsDes(crypt: (bytes, bytes) -> Option<bytes>) {
    && (forall key, salt :: IsResult(crypt(key, salt)))
    && (forall key, salt :: !IsPrefixed(salt) ==> DesResult(salt, crypt(key, salt)))
    && (forall key, salt, key', salt' :: SameSegment(key, salt, key', salt') ==> crypt(key, salt) == crypt(key', salt'))
  }

  /** All that DES `crypt` reads: eight characters of the key and a legal salt of two. */
  predicate SameSegment(key: bytes, salt: bytes, key': bytes, salt': bytes) {
    && LegalSalt(salt) && LegalSalt(salt') && salt[..SALT_SIZE] == salt'[..SALT_SIZE]
    && Take(key, SEGMENT_SIZE) == Take(key', SEGMENT_SIZE)
  }

  /** A function of that kind which succeeds for every legal salt. */
  function Constant(key: bytes, salt: bytes): Option<bytes> {
    if LegalSalt(salt) then Some(salt[..SALT_SIZE] + seq(ESEGMENT_SIZE, _ => '.')) else None
  }

  lemma ConstantResult(key: bytes, salt: bytes)
    ensures DesResult(salt, Constant(key, salt)) && IsResult(Constant(key, salt))
  {
    if LegalSalt(salt) {
      var r := Constant(key, salt).value;
      assert forall i :: 0 <= i < |r| ==> r[i] == if i < SALT_SIZE then salt[i] else '.';
    }
  }

  lemma ConstantIsDes()
    ensures IsDes(Constant)
  {
    hide DesResult, IsResult;
    forall key, salt ensures DesResult(salt, Constant(key, salt)) && IsResult(Constant(key, salt)) {
      ConstantResult(key, salt);
    }
  }

  /** `crypt`, of which only the shape of the DES results and what they depend on is known. */
  type Crypt = crypt: (bytes, bytes) -> Option<bytes> | IsDes(crypt) witness (ConstantIsDes(); Constant)

  // ---- the segment chain ----

  const MAX_PASS_LEN := 16
  const SEGMENT_SIZE := 8
  const SALT_SIZE := 2
  const KEYBUF_SIZE := MAX_PASS_LEN * SEGMENT_SIZE + SALT_SIZE
  const ESEGMENT_SIZE := 11
  const CBUF_SIZE := MAX_PASS_LEN * ESEGMENT_SIZE + SALT_SIZE + 1

  /** The part of the key that reaches the key buffer. */
  function Buffered(key: bytes, salt: bytes): bytes {
    if |salt| == SALT_SIZE + ESEGMENT_SIZE then Take(key, SEGMENT_SIZE) else Take(key, KEYBUF_SIZE)
  }

  function SegmentCount(keyLength: nat): (n: nat)
    ensures 1 <= n <= MAX_PASS_LEN
  {
    if keyLength == 0 then 1
    else if 1 + (keyLength - 1) / SEGMENT_SIZE > MAX_PASS_LEN then MAX_PASS_LEN
    else 1 + (keyLength - 1) / SEGMENT_SIZE
  }

  /** n more segments, the first of them salted by `previous`. */
  function Chain(crypt: Crypt, key: bytes, previous: bytes, n: nat): Option<bytes>
    requires LegalSalt(previous) && !IsPrefixed(previous)
    decreases n
  {
    if n == 0 then Some([]) else
      match crypt(key, previous)
      case None => None
      case Some(c) =>
        assert DesResult(previous, crypt(key, previous));
        SegmentIsSalt(c);
        match Chain(crypt, Drop(key, SEGMENT_SIZE), c[SALT_SIZE..], n - 1)
        case None => None
        case Some(rest) => Some(c[SALT_SIZE..] + rest)
  }

  function Encrypted(crypt: Crypt, key: bytes, salt: bytes): Option<bytes>
    requires !IsPrefixed(salt)
  {
    var k := Buffered(key, salt);
    match crypt(k, salt)
    case None => None
    case Some(c) =>
      assert DesResult(salt, crypt(k, salt));
      SegmentIsSalt(c);
      match Chain(crypt, Drop(k, SEGMENT_SIZE), c[SALT_SIZE..], SegmentCount(|k|) - 1)
      case None => None
      case Some(rest) => Some(c + rest)
  }

  lemma InAlphabet(c: byte)
    ensures c in ALPHABET <==> IsSaltChar(c)
  {
    hide DIGITS, UPPER, LOWER;
    InAlphabets(c);
    assert '.' <= c <= '9' <==> c in DIGITS || c in "./";
  }

  /** Eleven output characters can salt the next segment. */
  lemma SegmentIsSalt(c: bytes)
    requires |c| == SALT_SIZE + ESEGMENT_SIZE
    requires forall i :: 0 <= i < |c| ==> IsSaltChar(c[i])
    ensures LegalSalt(c[SALT_SIZE..]) && !IsPrefixed(c[SALT_SIZE..])
  {
  }

  // ---- what the chain gives ----

  predicate AllSaltChars(s: bytes) {
    forall i :: 0 <= i < |s| ==> IsSaltChar(s[i])
  }

  lemma SaltCharsAreCString(s: bytes)
    requires AllSaltChars(s)
    ensures IsCString(s)
  {
  }

  lemma {:induction false} ChainShape(crypt: Crypt, key: bytes, previous: bytes, n: nat)
    requires LegalSalt(previous) && !IsPrefixed(previous)
    ensures var r := Chain(crypt, key, previous, n);
            r.Some? ==> |r.value| == ESEGMENT_SIZE * n && AllSaltChars(r.value)
    decreases n
  {
    if n == 0 || crypt(key, previous) == None {
    } else {
      var c := crypt(key, previous).value;
      assert DesResult(previous, crypt(key, previous));
      SegmentIsSalt(c);
      ChainShape(crypt, Drop(key, SEGMENT_SIZE), c[SALT_SIZE..], n - 1);
    }
  }

  /** The output is 13 characters and 11 for each further segment, all from the alphabet, and fits
      the output buffer with its terminator; its first two characters are the salt's. */
  lemma EncryptedShape(crypt: Crypt, key: bytes, salt: bytes)
    requires !IsPrefixed(salt) && Encrypted(crypt, key, salt).Some?
    ensures var out := Encrypted(crypt, key, salt).value;
            && LegalSalt(salt) && out[..SALT_SIZE] == salt[..SALT_SIZE] && AllSaltChars(out)
            && |out| == 13 + ESEGMENT_SIZE * (SegmentCount(|Buffered(key, salt)|) - 1)
            && |out| < CBUF_SIZE
  {
    hide Chain;
    var k := Buffered(key, salt);
    var c := crypt(k, salt).value;
    assert DesResult(salt, crypt(k, salt));
    SegmentIsSalt(c);
    ChainShape(crypt, Drop(k, SEGMENT_SIZE), c[SALT_SIZE..], SegmentCount(|k|) - 1);
  }

  /** The number of segments is the length in eights, rounded up, but at least 1 and at most 16. */
  lemma SegmentCountIs(n: nat)
    ensures SegmentCount(n) == 1 <==> n <= 8
    ensures 1 <= SegmentCount(n) < 16 && n > 0 ==> 8 * (SegmentCount(n) - 1) < n <= 8 * SegmentCount(n)
    ensures SegmentCount(n) == 16 <==> n > 120
  {
  }

  /** A segment reads no more than eight characters of what is left of the key. */
  lemma {:induction false} ChainReads(crypt: Crypt, key: bytes, previous: bytes, n: nat, m: nat)
    requires LegalSalt(previous) && !IsPrefixed(previous) && 8 * n <= m
    ensures Chain(crypt, key, previous, n) == Chain(crypt, Take(key, m), previous, n)
    decreases n
  {
    if n == 0 {
    } else {
      assert Take(Take(key, m), 8) == Take(key, 8);
      assert crypt(key, previous) == crypt(Take(key, m), previous);
      assert DesResult(previous, crypt(key, previous));
      if crypt(key, previous).Some? {
        var c := crypt(key, previous).value;
        SegmentIsSalt(c);
        ChainReads(crypt, Drop(key, 8), c[SALT_SIZE..], n - 1, m - 8);
        assert Drop(Take(key, m), 8) == Take(Drop(key, 8), m - 8);
      }
    }
  }

  /** Fewer segments give a prefix. */
  lemma {:induction false} ChainPrefix(crypt: Crypt, key: bytes, previous: bytes, n: nat, m: nat)
    requires LegalSalt(previous) && !IsPrefixed(previous) && m <= n
    requires Chain(crypt, key, previous, n).Some?
    ensures Chain(crypt, key, previous, m).Some?
    ensures Chain(crypt, key, previous, m).value <= Chain(crypt, key, previous, n).value
    decreases n
  {
    if m == 0 {
    } else {
      var c := crypt(key, previous).value;
      assert DesResult(previous, crypt(key, previous));
      SegmentIsSalt(c);
      ChainPrefix(crypt, Drop(key, 8), c[SALT_SIZE..], n - 1, m - 1);
    }
  }

  /** Only the first 128 characters of a key matter. */
  lemma OnlyFirst128Matter(crypt: Crypt, key: bytes, salt: bytes)
    requires !IsPrefixed(salt)
    ensures Encrypted(crypt, key, salt) == Encrypted(crypt, Take(key, 128), salt)
  {
    var k, k' := Buffered(key, salt), Buffered(Take(key, 128), salt);
    assert |salt| == 13 ==> k == k';
    assert |salt| != 13 ==> k' == Take(k, 128);
    assert Take(k, 8) == Take(k', 8);
    assert DesResult(salt, crypt(k, salt)) && DesResult(salt, crypt(k', salt));
    SegmentCountIs(|k|);
    SegmentCountIs(|k'|);
    assert LegalSalt(salt) ==> crypt(k, salt) == crypt(k', salt);
    if crypt(k, salt).Some? {
      var c := crypt(k, salt).value;
      SegmentIsSalt(c);
      ChainReads(crypt, Drop(k, 8), c[SALT_SIZE..], SegmentCount(|k|) - 1, 120);
      assert |salt| != 13 ==> Drop(k', 8) == Take(Drop(k, 8), 120);
    }
  }

  /** For a salt that is not 13 long, whole segments of a key give a prefix of its output. */
  lemma SegmentsGivePrefix(crypt: Crypt, key: bytes, salt: bytes, m: nat)
    requires !IsPrefixed(salt) && |salt| != SALT_SIZE + ESEGMENT_SIZE
    requires 1 <= m && 8 * m <= |key| && Encrypted(crypt, key, salt).Some?
    ensures Encrypted(crypt, key[..8 * m], salt).Some?
    ensures Encrypted(crypt, key[..8 * m], salt).value <= Encrypted(crypt, key, salt).value
  {
    hide Chain;
    var k, k' := Buffered(key, salt), Buffered(key[..8 * m], salt);
    var n, n' := SegmentCount(|k|), SegmentCount(|k'|);
    assert Take(k, 8) == Take(k', 8);
    assert DesResult(salt, crypt(k, salt)) && DesResult(salt, crypt(k', salt));
    var c := crypt(k, salt).value;
    assert crypt(k', salt) == Some(c);
    SegmentIsSalt(c);
    ChainPrefix(crypt, Drop(k, 8), c[SALT_SIZE..], n - 1, n' - 1);
    ChainReads(crypt, Drop(k, 8), c[SALT_SIZE..], n' - 1, 8 * (n' - 1));
    ChainReads(crypt, Drop(k', 8), c[SALT_SIZE..], n' - 1, 8 * (n' - 1));
    assert Take(Drop(k, 8), 8 * (n' - 1)) == Take(Drop(k', 8), 8 * (n' - 1));
  }

  function Joined(out: bytes, rest: Option<bytes>): Option<bytes> {
    if rest.Some? then Some(out + rest.value) else None
  }

  lemma ChainNext(crypt: Crypt, key: bytes, previous: bytes, n: nat)
    requires LegalSalt(previous) && !IsPrefixed(previous) && n > 0
    ensures var r := crypt(key, previous);
            && (r.Some? ==>
                  && |r.value| == SALT_SIZE + ESEGMENT_SIZE && AllSaltChars(r.value)
                  && LegalSalt(r.value[SALT_SIZE..]) && !IsPrefixed(r.value[SALT_SIZE..]))
            && Chain(crypt, key, previous, n)
               == if r == None then None
                  else Joined(r.value[SALT_SIZE..],
                              Chain(crypt, Drop(key, SEGMENT_SIZE), r.value[SALT_SIZE..], n - 1))
  {
    assert DesResult(previous, crypt(key, previous));
    if crypt(key, previous).Some? {
      SegmentIsSalt(crypt(key, previous).value);
    }
  }

  lemma DropMore(k: bytes, i: nat, j: nat)
    ensures Drop(Drop(k, i), j) == Drop(k, i + j)
  {
  }

  // ---- every character of the key counts ----

  /** At most 130 characters reach the buffer, or 8 when the salt is 13 long. */
  lemma BufferedIs(key: bytes, salt: bytes)
    ensures Buffered(key, salt) == if |salt| == 13 then Take(key, 8) else Take(key, 130)
    ensures |salt| != 13 ==> SegmentCount(|Buffered(key, salt)|) == SegmentCount(|key|)
    ensures |salt| == 13 ==> SegmentCount(|Buffered(key, salt)|) == 1
  {
    SegmentCountIs(|key|);
    SegmentCountIs(|Buffered(key, salt)|);
  }

  /** The length of the output by the length of the key: a segment for every eight characters that are begun,
      up to sixteen. */
  lemma LengthByKey(crypt: Crypt, key: bytes, salt: bytes)
    requires !IsPrefixed(salt) && Encrypted(crypt, key, salt).Some?
    ensures var n := |Encrypted(crypt, key, salt).value|;
            && (|salt| == 13 || |key| <= 8 ==> n == 13)
            && (|salt| != 13 && 8 < |key| <= 128 ==> n == 13 + 11 * ((|key| - 1) / 8))
            && (|salt| != 13 && 128 < |key| ==> n == 178)
  {
    EncryptedShape(crypt, key, salt);
    hide Encrypted, Buffered;
    BufferedIs(key, salt);
    SegmentCountIs(|key|);
  }

  /** What segment j of the key is. */
  function Piece(key: bytes, j: nat): bytes {
    Take(Drop(key, 8 * j), 8)
  }

  /** Piece j is encrypted under the eleven characters at 11 j of `segments`, and the eleven after them come
      out of it. */
  ghost predicate Links(crypt: Crypt, key: bytes, segments: bytes, j: nat) {
    && 11 * j + 22 <= |segments|
    && var salt := Slice(segments, 11 * j, 11 * j + 11);
       crypt(Piece(key, j), salt) == Some(salt[..2] + Slice(segments, 11 * j + 11, 11 * j + 22))
  }

  lemma SliceAfter(a: bytes, b: bytes, i: nat, j: nat)
    requires i <= j <= |b|
    ensures Slice(a + b, |a| + i, |a| + j) == Slice(b, i, j)
  {
  }

  lemma SliceAt(a: bytes, b: bytes, c: bytes)
    ensures Slice(a + b + c, |a|, |a| + |b|) == b
  {
  }

  lemma FirstLink(crypt: Crypt, key: bytes, previous: bytes, rest: bytes)
    requires LegalSalt(previous) && !IsPrefixed(previous) && |previous| == 11 && crypt(key, previous).Some?
    ensures |crypt(key, previous).value| == 13
    ensures Links(crypt, key, previous + (crypt(key, previous).value[2..] + rest), 0)
  {
    hide Piece, IsDes, LegalSalt, DesResult;
    FirstPiece(crypt, key, previous);
    var segment := crypt(key, previous).value[2..];
    var segments := previous + (segment + rest);
    assert segments == [] + previous + (segment + rest) == previous + segment + rest;
    SliceAt([], previous, segment + rest);
    SliceAt(previous, segment, rest);
  }

  lemma NextLink(crypt: Crypt, key: bytes, previous: bytes, segments: bytes, j: nat)
    requires |previous| == 11 && Links(crypt, Drop(key, 8), segments, j)
    ensures Links(crypt, key, previous + segments, j + 1)
  {
    hide Piece, IsDes, Slice;
    PieceOfDrop(key, j);
    SliceAfter(previous, segments, 11 * j, 11 * j + 11);
    SliceAfter(previous, segments, 11 * j + 11, 11 * j + 22);
  }

  /** In a chain each piece of the key is encrypted under the segment before it. */
  lemma {:induction false} ChainLinks(crypt: Crypt, key: bytes, previous: bytes, n: nat, j: nat)
    requires LegalSalt(previous) && !IsPrefixed(previous) && |previous| == 11 && j < n
    requires Chain(crypt, key, previous, n).Some?
    ensures Links(crypt, key, previous + Chain(crypt, key, previous, n).value, j)
    decreases n
  {
    hide Chain, AllSaltChars, LegalSalt, IsPrefixed, IsDes, Links;
    ChainNext(crypt, key, previous, n);
    var segment := crypt(key, previous).value[2..];
    var rest := Chain(crypt, Drop(key, 8), segment, n - 1).value;
    if j == 0 {
      FirstLink(crypt, key, previous, rest);
    } else {
      ChainLinks(crypt, Drop(key, 8), segment, n - 1, j - 1);
      NextLink(crypt, key, previous, segment + rest, j - 1);
    }
  }

  lemma FirstPiece(crypt: Crypt, key: bytes, previous: bytes)
    requires LegalSalt(previous) && !IsPrefixed(previous) && crypt(key, previous).Some?
    ensures crypt(Piece(key, 0), previous) == crypt(key, previous)
    ensures |crypt(key, previous).value| == 13
    ensures crypt(key, previous).value == previous[..2] + crypt(key, previous).value[2..]
  {
    assert DesResult(previous, crypt(key, previous));
    assert SameSegment(key, previous, Piece(key, 0), previous);
  }

  lemma PieceOfPiece(key: bytes, n: nat, j: nat)
    requires 8 * j + 8 <= n
    ensures Piece(Take(key, n), j) == Piece(key, j)
  {
  }

  lemma PieceOfDrop(key: bytes, j: nat)
    ensures Piece(Drop(key, 8), j) == Piece(key, j + 1)
  {
    DropMore(key, 8, 8 * j);
  }

  lemma EncryptedParts(crypt: Crypt, key: bytes, salt: bytes)
    requires !IsPrefixed(salt) && Encrypted(crypt, key, salt).Some?
    ensures var k, out := Buffered(key, salt), Encrypted(crypt, key, salt).value;
            && |out| >= 13 && crypt(k, salt) == Some(out[..13]) && LegalSalt(salt)
            && LegalSalt(out[2..13]) && !IsPrefixed(out[2..13])
            && var rest := Chain(crypt, Drop(k, 8), out[2..13], SegmentCount(|k|) - 1);
               rest.Some? && out[2..] == out[2..13] + rest.value
  {
    hide Chain, Buffered;
    var k := Buffered(key, salt);
    var c := crypt(k, salt).value;
    assert DesResult(salt, crypt(k, salt));
    SegmentIsSalt(c);
    assert Encrypted(crypt, key, salt).value[..13] == c && Encrypted(crypt, key, salt).value[2..13] == c[2..];
  }

  /** The output, segment by segment: the first is the encryption of the first eight characters under the
      salt, and each further eight are encrypted under the segment before theirs. */
  lemma SegmentIs(crypt: Crypt, key: bytes, salt: bytes, j: nat)
    requires !IsPrefixed(salt) && |salt| != 13 && Encrypted(crypt, key, salt).Some?
    requires j < SegmentCount(|key|)
    ensures var out := Encrypted(crypt, key, salt).value;
            && |out| >= 13
            && (j == 0 ==> crypt(Piece(key, 0), salt) == Some(out[..13]))
            && (j > 0 ==> Links(crypt, Drop(key, 8), out[2..], j - 1))
  {
    hide Chain, Encrypted, LegalSalt, IsDes, SegmentCount, IsPrefixed;
    BufferedIs(key, salt);
    EncryptedParts(crypt, key, salt);
    var k, out := Buffered(key, salt), Encrypted(crypt, key, salt).value;
    SegmentCountIs(|key|);
    FirstPiece(crypt, k, salt);
    if j == 0 {
      PieceOfPiece(key, 130, 0);
    } else {
      ChainLinks(crypt, Drop(k, 8), out[2..13], SegmentCount(|k|) - 1, j - 1);
      PieceOfDrop(k, j - 1);
      PieceOfDrop(key, j - 1);
      PieceOfPiece(key, 130, j);
    }
  }

  // ---- a hash is its own salt ----

  lemma SameFirstSegment(crypt: Crypt, k: bytes, k': bytes, s: bytes, s': bytes)
    requires LegalSalt(s) && LegalSalt(s') && s[..SALT_SIZE] == s'[..SALT_SIZE]
    requires Take(k, SEGMENT_SIZE) == Take(k', SEGMENT_SIZE)
    ensures crypt(k, s) == crypt(k', s')
  {
  }

  /** A salt of 13 characters gives one segment. */
  lemma ThirteenGivesOneSegment(crypt: Crypt, key: bytes, salt: bytes)
    requires !IsPrefixed(salt) && |salt| == 13
    ensures Encrypted(crypt, key, salt) == crypt(Take(key, SEGMENT_SIZE), salt)
  {
    var k := Take(key, SEGMENT_SIZE);
    SegmentCountIs(|k|);
    assert DesResult(salt, crypt(k, salt));
    if crypt(k, salt).Some? {
      var c := crypt(k, salt).value;
      SegmentIsSalt(c);
      assert c + [] == c;
    }
  }

  lemma FirstSegment(crypt: Crypt, key: bytes, salt: bytes)
    requires !IsPrefixed(salt) && Encrypted(crypt, key, salt).Some?
    ensures |Encrypted(crypt, key, salt).value| >= 13
    ensures crypt(Buffered(key, salt), salt) == Some(Encrypted(crypt, key, salt).value[..13])
  {
    hide Chain;
    assert DesResult(salt, crypt(Buffered(key, salt), salt));
  }

  /** Only the first two characters of a salt matter, and whether it is 13 long. */
  lemma SameSalt(crypt: Crypt, key: bytes, s: bytes, s': bytes)
    requires LegalSalt(s) && LegalSalt(s') && s[..SALT_SIZE] == s'[..SALT_SIZE] && !IsPrefixed(s) && !IsPrefixed(s')
    requires Buffered(key, s) == Buffered(key, s')
    ensures Encrypted(crypt, key, s) == Encrypted(crypt, key, s')
  {
    hide Chain;
    SameFirstSegment(crypt, Buffered(key, s), Buffered(key, s), s, s');
  }

  /** Encrypting with the output as the salt gives the output again, also when the output is 13 long
      and therefore cuts the key, and with its first 13 characters gives those. */
  lemma EncryptedIsFixpoint(crypt: Crypt, key: bytes, salt: bytes)
    requires !IsPrefixed(salt) && Encrypted(crypt, key, salt).Some?
    ensures var out := Encrypted(crypt, key, salt).value;
            && |out| >= 13 && !IsPrefixed(out) && !IsPrefixed(out[..13])
            && Encrypted(crypt, key, out) == Some(out)
            && Encrypted(crypt, key, out[..13]) == Some(out[..13])
  {
    EncryptedShape(crypt, key, salt);
    FirstSegment(crypt, key, salt);
    hide Chain, Encrypted;
    var out, k := Encrypted(crypt, key, salt).value, Buffered(key, salt);
    assert Take(k, SEGMENT_SIZE) == Take(key, SEGMENT_SIZE);
    SegmentCountIs(|k|);
    assert LegalSalt(out) && LegalSalt(out[..13]);
    ThirteenGivesOneSegment(crypt, key, out[..13]);
    SameFirstSegment(crypt, k, Take(key, SEGMENT_SIZE), salt, out[..13]);
    assert |out| == 13 ==> |k| <= 8;
    SameSalt(crypt, key, salt, out);
  }

  // ---- the buffer ----

  /** What `strncpy` writes: at most n characters of a string, and terminators up to n. */
  function Padded(s: bytes, n: nat): (t: bytes)
    ensures |t| == n
  {
    Take(s, n) + Zeros(n - |Take(s, n)|)
  }

  /** n more segments behind those that are in the buffer. The salt is the string that starts eleven
      places before its end. */
  function Segments(crypt: Crypt, key: bytes, buffer: bytes, n: nat): Option<bytes>
    requires |buffer| >= ESEGMENT_SIZE
    decreases n
  {
    if n == 0 then Some(buffer) else
      match crypt(key, CStr(buffer[|buffer| - ESEGMENT_SIZE..]))
      case None => None
      case Some(c) =>
        Segments(crypt, Drop(key, SEGMENT_SIZE), buffer + Padded(Drop(c, SALT_SIZE), ESEGMENT_SIZE), n - 1)
  }

  function Buffer(crypt: Crypt, key: bytes, salt: bytes): Option<bytes> {
    var k := Buffered(key, salt);
    match crypt(k, salt)
    case None => None
    case Some(c) =>
      Segments(crypt, Drop(k, SEGMENT_SIZE), Padded(c, SALT_SIZE + ESEGMENT_SIZE), SegmentCount(|k|) - 1)
  }

  /** The result for any salt, one that names another method included: the string at the front of the
      buffer. */
  function LongEncrypted(crypt: Crypt, key: bytes, salt: bytes): Option<bytes> {
    var buffer := Buffer(crypt, key, salt);
    if buffer.Some? then Some(CStr(buffer.value)) else None
  }

  lemma LastSegment(buffer: bytes, c: bytes)
    requires |c| == SALT_SIZE + ESEGMENT_SIZE && AllSaltChars(c)
    ensures var segment := c[SALT_SIZE..];
            && Padded(Drop(c, SALT_SIZE), ESEGMENT_SIZE) == segment && AllSaltChars(segment) && IsCString(segment)
            && (buffer + segment)[|buffer + segment| - ESEGMENT_SIZE..] == segment
  {
    assert Drop(c, SALT_SIZE) == c[SALT_SIZE..];
    assert forall i :: 0 <= i < ESEGMENT_SIZE ==> c[SALT_SIZE..][i] == c[SALT_SIZE + i];
    SaltCharsAreCString(c[SALT_SIZE..]);
  }

  lemma PaddedIs(c: bytes)
    ensures Padded(c, |c|) == c
  {
  }

  lemma JoinedSegment(buffer: bytes, segment: bytes, rest: Option<bytes>)
    ensures Joined(buffer, Joined(segment, rest)) == Joined(buffer + segment, rest)
    ensures Joined(buffer, Some([])) == Some(buffer)
  {
    if rest.Some? {
      assert buffer + (segment + rest.value) == (buffer + segment) + rest.value;
    }
    assert buffer + [] == buffer;
  }

  lemma SegmentsNext(crypt: Crypt, key: bytes, buffer: bytes, previous: bytes, n: nat)
    requires |buffer| >= ESEGMENT_SIZE && buffer[|buffer| - ESEGMENT_SIZE..] == previous && n > 0
    requires LegalSalt(previous) && !IsPrefixed(previous) && IsCString(previous)
    ensures var r := crypt(key, previous);
            && (r == None ==> Segments(crypt, key, buffer, n) == None)
            && (r.Some? ==>
                  && |r.value| == SALT_SIZE + ESEGMENT_SIZE && AllSaltChars(r.value)
                  && Segments(crypt, key, buffer, n)
                     == Segments(crypt, Drop(key, SEGMENT_SIZE), buffer + r.value[SALT_SIZE..], n - 1))
  {
    hide CStr, Padded;
    CStrIs(previous, previous);
    assert DesResult(previous, crypt(key, previous));
    if crypt(key, previous).Some? {
      LastSegment(buffer, crypt(key, previous).value);
    }
  }

  lemma NoSegments(crypt: Crypt, key: bytes, buffer: bytes, previous: bytes)
    requires |buffer| >= ESEGMENT_SIZE && LegalSalt(previous) && !IsPrefixed(previous)
    ensures Segments(crypt, key, buffer, 0) == Joined(buffer, Chain(crypt, key, previous, 0))
  {
    JoinedSegment(buffer, [], None);
  }

  lemma {:induction false} SegmentsAreChain(crypt: Crypt, key: bytes, buffer: bytes, previous: bytes, n: nat)
    requires |buffer| >= ESEGMENT_SIZE && buffer[|buffer| - ESEGMENT_SIZE..] == previous
    requires LegalSalt(previous) && !IsPrefixed(previous) && IsCString(previous)
    ensures Segments(crypt, key, buffer, n) == Joined(buffer, Chain(crypt, key, previous, n))
    decreases n
  {
    hide IsDes, Joined, Chain, Segments, AllSaltChars, LegalSalt, IsPrefixed, IsCString, CStr, Drop, Padded;
    if n == 0 {
      NoSegments(crypt, key, buffer, previous);
    } else {
      ChainNext(crypt, key, previous, n);
      SegmentsNext(crypt, key, buffer, previous, n);
      if crypt(key, previous).Some? {
        var segment := crypt(key, previous).value[SALT_SIZE..];
        LastSegment(buffer, crypt(key, previous).value);
        SegmentsAreChain(crypt, Drop(key, SEGMENT_SIZE), buffer + segment, segment, n - 1);
        JoinedSegment(buffer, segment, Chain(crypt, Drop(key, SEGMENT_SIZE), segment, n - 1));
      } else {
        JoinedNone(buffer);
      }
    }
  }

  lemma JoinedNone(buffer: bytes)
    ensures Joined(buffer, None) == None
  {
  }

  lemma BufferIsEncrypted(crypt: Crypt, key: bytes, salt: bytes)
    requires !IsPrefixed(salt)
    ensures Buffer(crypt, key, salt) == Encrypted(crypt, key, salt)
  {
    hide Chain, Segments, Buffered, CStr, Padded;
    var k := Buffered(key, salt);
    assert DesResult(salt, crypt(k, salt));
    if crypt(k, salt).Some? {
      var c := crypt(k, salt).value;
      SegmentIsSalt(c);
      LastSegment([], c);
      PaddedIs(c);
      SegmentsAreChain(crypt, Drop(k, SEGMENT_SIZE), c, c[SALT_SIZE..], SegmentCount(|k|) - 1);
    }
  }

  /** For DES the buffer holds the segment chain. */
  lemma LongEncryptedIs(crypt: Crypt, key: bytes, salt: bytes)
    requires !IsPrefixed(salt)
    ensures LongEncrypted(crypt, key, salt) == Encrypted(crypt, key, salt)
  {
    hide Encrypted, Buffer, CStr;
    BufferIsEncrypted(crypt, key, salt);
    if Encrypted(crypt, key, salt).Some? {
      EncryptedShape(crypt, key, salt);
      var out := Encrypted(crypt, key, salt).value;
      SaltCharsAreCString(out);
      CStrIs(out, out);
    }
  }

  // ---- the code ----

  method FillKeybuf(key: bytes, salt: bytes) returns (keybuf: array<byte>)
    requires IsCString(key)
    ensures fresh(keybuf) && keybuf.Length == KEYBUF_SIZE + 1
    ensures CStr(keybuf[..]) == Buffered(key, salt)
  {
    keybuf := new byte[KEYBUF_SIZE + 1](_ => NUL);
    CopyInto(keybuf, 0, Take(key, KEYBUF_SIZE));
    if |salt| == SALT_SIZE + ESEGMENT_SIZE {
      keybuf[SEGMENT_SIZE] := NUL;
    }
    assert Buffered(key, salt) <= keybuf[..];
    CStrIs(keybuf[..], Buffered(key, salt));
  }

  /** The state between two segments: `cipher` bytes are written, terminators follow, and the segments
      that are left, put behind them, give the whole buffer. */
  ghost predicate Between(
    crypt: Crypt, cbuf: array<byte>, cipher: nat, k: bytes, plaintext: nat, left: nat, whole: Option<bytes>)
    reads cbuf
  {
    && cbuf.Length == CBUF_SIZE && 13 <= cipher && cipher + 11 * left < CBUF_SIZE
    && cbuf[cipher..] == Zeros(CBUF_SIZE - cipher)
    && whole == Segments(crypt, Drop(k, plaintext), cbuf[..cipher], left)
  }

  /** With terminators behind it, the string in the written part is the string in the buffer; so is the
      one that starts at the salt pointer. */
  lemma Written(memory: bytes, cipher: nat, i: nat)
    requires i <= cipher < |memory| && memory[cipher] == NUL
    ensures CStr(memory[i..]) == CStr(memory[..cipher][i..])
  {
    assert memory[i..] == memory[..cipher][i..] + memory[cipher..];
    BeforeOfAppend(memory[..cipher][i..], memory[cipher..], NUL);
  }

  /** The body of the loop; false when libc's crypt fails. */
  method AddSegment(
    crypt: Crypt, cbuf: array<byte>, cipher: nat, keybuf: array<byte>, plaintext: nat, ghost left: nat,
    ghost whole: Option<bytes>)
    returns (ok: bool)
    requires cbuf != keybuf && left > 0 && plaintext <= |CStr(keybuf[..])|
    requires Between(crypt, cbuf, cipher, CStr(keybuf[..]), plaintext, left, whole)
    modifies cbuf
    ensures !ok ==> whole == None
    ensures ok ==> Between(crypt, cbuf, cipher + 11, CStr(keybuf[..]), plaintext + 8, left - 1, whole)
  {
    hide CStr, Padded, IsCString;
    ghost var k, out := CStr(keybuf[..]), cbuf[..cipher];
    var saltAt := cipher - ESEGMENT_SIZE;
    assert cbuf[..][cipher] == cbuf[cipher..][0];
    Written(cbuf[..], cipher, saltAt);
    assert cbuf[..][saltAt..] == cbuf[saltAt..] && cbuf[..][..cipher] == out;
    CStrTail(keybuf[..], plaintext);
    assert keybuf[..][plaintext..] == keybuf[plaintext..] && k[plaintext..] == Drop(k, plaintext);
    var tmp := crypt(CStr(keybuf[plaintext..]), CStr(cbuf[saltAt..]));
    if tmp == None {
      return false;
    }
    var segment := Padded(Drop(tmp.value, SALT_SIZE), ESEGMENT_SIZE);
    CopyInto(cbuf, cipher, segment);
    assert cbuf[..cipher + 11] == out + segment;
    DropMore(k, plaintext, SEGMENT_SIZE);
    ok := true;
  }

  /** The first segment, whose salt is the caller's; false when libc's crypt fails. */
  method FirstSegmentInto(crypt: Crypt, cbuf: array<byte>, keybuf: array<byte>, key: bytes, salt: bytes)
    returns (ok: bool)
    requires cbuf != keybuf && CStr(keybuf[..]) == Buffered(key, salt)
    requires cbuf.Length == CBUF_SIZE && cbuf[..] == Zeros(CBUF_SIZE)
    modifies cbuf
    ensures !ok ==> Buffer(crypt, key, salt) == None
    ensures ok ==> var k := CStr(keybuf[..]);
                   Between(crypt, cbuf, 13, k, 8, SegmentCount(|k|) - 1, Buffer(crypt, key, salt))
  {
    hide Segments, CStr, Padded, Buffered;
    assert keybuf[0..] == keybuf[..];
    var tmp := crypt(CStr(keybuf[0..]), salt);
    if tmp == None {
      return false;
    }
    CopyInto(cbuf, 0, Padded(tmp.value, 13));
    assert cbuf[..13] == Padded(tmp.value, 13);
    ok := true;
  }

  lemma BetweenAtEnd(crypt: Crypt, cbuf: array<byte>, cipher: nat, k: bytes, plaintext: nat, whole: Option<bytes>)
    requires Between(crypt, cbuf, cipher, k, plaintext, 0, whole)
    ensures whole.Some? && CStr(whole.value) == CStr(cbuf[..])
  {
    hide CStr;
    assert cbuf[..][cipher] == cbuf[cipher..][0];
    Written(cbuf[..], cipher, 0);
    assert cbuf[..][0..] == cbuf[..] && cbuf[..][..cipher][0..] == cbuf[..cipher];
  }

  /** Segments 2 to nSeg; false when libc's crypt fails. */
  method AddSegments(crypt: Crypt, cbuf: array<byte>, keybuf: array<byte>, nSeg: nat, ghost whole: Option<bytes>)
    returns (ok: bool)
    requires cbuf != keybuf && nSeg == SegmentCount(|CStr(keybuf[..])|)
    requires Between(crypt, cbuf, 13, CStr(keybuf[..]), 8, nSeg - 1, whole)
    modifies cbuf
    ensures !ok ==> whole == None
    ensures ok ==> whole.Some? && CStr(whole.value) == CStr(cbuf[..])
  {
    hide Between, CStr;
    ghost var k := CStr(keybuf[..]);
    SegmentCountIs(|k|);
    var cipher, plaintext := ESEGMENT_SIZE + SALT_SIZE, SEGMENT_SIZE;
    var j := 2;
    while j <= nSeg
      invariant 2 <= j <= nSeg + 1 && plaintext == 8 * (j - 1) && cipher == 13 + 11 * (j - 2)
      invariant CStr(keybuf[..]) == k && Between(crypt, cbuf, cipher, k, plaintext, nSeg + 1 - j, whole)
    {
      ok := AddSegment(crypt, cbuf, cipher, keybuf, plaintext, nSeg + 1 - j, whole);
      if !ok {
        return;
      }
      cipher := cipher + ESEGMENT_SIZE;
      plaintext := plaintext + SEGMENT_SIZE;
      j := j + 1;
    }
    BetweenAtEnd(crypt, cbuf, cipher, k, plaintext, whole);
    ok := true;
  }

  /** `bigcrypt`: null when libc's crypt fails. */
  method EncryptLong(crypt: Crypt, key: bytes, salt: bytes) returns (r: array?<byte>)
    requires IsCString(key)
    ensures r == null <==> LongEncrypted(crypt, key, salt) == None
    ensures r != null ==> fresh(r) && LongEncrypted(crypt, key, salt) == Some(CStr(r[..]))
  {
    hide CStr, Buffer, Between, Buffered;
    var cbuf := new byte[CBUF_SIZE](_ => NUL);
    assert cbuf[..] == Zeros(CBUF_SIZE);
    var keybuf := FillKeybuf(key, salt);
    var nSeg := SegmentCount(|CStr(keybuf[..])|);
    ghost var whole := Buffer(crypt, key, salt);
    var ok := FirstSegmentInto(crypt, cbuf, keybuf, key, salt);
    if !ok {
      return null;
    }
    if nSeg > 1 {
      ok := AddSegments(crypt, cbuf, keybuf, nSeg, whole);
      if !ok {
        return null;
      }
    } else {
      BetweenAtEnd(crypt, cbuf, 13, CStr(keybuf[..]), 8, whole);
    }
    r := cbuf;
  }
}
