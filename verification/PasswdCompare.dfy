/** lib/passwd_compare.c: does a password match a stored hash? */
module PasswdCompare {
  import opened CBytes
  import Md5Crypt
  import opened BigCrypt

  // ---- stripping ----

  /** The longest prefix in the alphabet. */
  function LegalRun(s: bytes): (r: bytes)
    ensures r <= s && AllSaltChars(r)
    ensures |r| < |s| ==> !IsSaltChar(s[|r|])
  {
    if s == [] || !IsSaltChar(s[0]) then [] else [s[0]] + LegalRun(s[1..])
  }

  /** What is left of a hash: an unprefixed one of more than 13 characters ends before the first
      foreign character after them. */
  function Stripped(h: bytes): bytes {
    if h != [] && h[0] != '$' && |h| > 13 then h[..13] + LegalRun(h[13..]) else h
  }

  lemma {:induction false} LegalRunIs(s: bytes, r: bytes)
    requires r <= s && AllSaltChars(r)
    requires |r| == |s| || !IsSaltChar(s[|r|])
    ensures LegalRun(s) == r
  {
    if r == [] {
    } else {
      LegalRunIs(s[1..], r[1..]);
    }
  }

  lemma StripsOnce(h: bytes)
    ensures Stripped(Stripped(h)) == Stripped(h)
  {
    if h != [] && h[0] != '$' && |h| > 13 {
      var run := LegalRun(h[13..]);
      assert Stripped(h)[13..] == run;
      LegalRunIs(run, run);
    }
  }

  lemma StrippedIs(h: bytes, p: nat)
    requires 13 <= p <= |h| && |h| > 13 && h[0] != '$' && AllSaltChars(h[13..p])
    requires p < |h| ==> !IsSaltChar(h[p])
    ensures Stripped(h) == h[..p]
  {
    LegalRunIs(h[13..], h[13..p]);
    assert h[..p] == h[..13] + h[13..p];
  }

  /** In place: the pointer runs along the characters after the first 13, and a terminator is written
      over the first foreign one. */
  method StripHpuxAging(hash: array<byte>)
    requires |CStr(hash[..])| < hash.Length
    modifies hash
    ensures CStr(hash[..]) == Stripped(old(CStr(hash[..])))
  {
    hide ALPHABET, CStr, Stripped;
    ghost var h := CStr(hash[..]);
    if hash[0] != '$' && |CStr(hash[..])| > 13 {
      assert h[0] == hash[0];
      var p := 13;
      while hash[p] != NUL
        invariant 13 <= p <= |h| && hash[..] == old(hash[..])
        invariant AllSaltChars(h[13..p])
        decreases |h| - p
      {
        assert p < |h| && hash[p] == h[p];
        InAlphabet(hash[p]);
        if hash[p] !in ALPHABET {
          hash[p] := NUL;
          assert forall i :: 0 <= i < p ==> h[..p][i] == h[i];
          CStrIs(hash[..], h[..p]);
          StrippedIs(h, p);
          return;
        }
        assert h[13..p + 1] == h[13..p] + [h[p]];
        p := p + 1;
      }
      assert p == |h|;
      StrippedIs(h, p);
    } else {
      NotStripped(h);
    }
  }

  lemma NotStripped(h: bytes)
    requires h == [] || h[0] == '$' || |h| <= 13
    ensures Stripped(h) == h
  {
  }

  // ---- the decision ----

  /** Does the (stripped) hash h come out when p is hashed with h itself as the salt? */
  ghost predicate Matches(crypt: Crypt, p: bytes, h: bytes)
    requires h != []
  {
    if Md5Crypt.MAGIC <= h then Md5Crypt.Hash(p, h) == h
    else if h[0] != '$' && |h| >= 13 then Encrypted(crypt, p, h) == Some(h)
    else crypt(p, h) == Some(h)
  }

  /** 0 for a match, as verify_pwd returns it. */
  ghost function Verdict(crypt: Crypt, p: Option<bytes>, stored: bytes, nullok: bool): int {
    var h := Stripped(stored);
    if h == [] then if nullok then 0 else 1
    else if p == None || h[0] == '*' || h[0] == '!' then 1
    else if Matches(crypt, p.value, h) then 0 else 1
  }

  method VerifyPwd(machine: Machine, crypt: Crypt, p: Option<bytes>, hash: array<byte>, nullok: bool)
    returns (retval: int)
    requires |CStr(hash[..])| < hash.Length
    requires p.Some? ==> IsCString(p.value) && |p.value| < 0x8000_0000
    modifies hash
    ensures CStr(hash[..]) == Stripped(old(CStr(hash[..])))
    ensures retval == Verdict(crypt, p, old(CStr(hash[..])), nullok)
  {
    hide Stripped, CStr, Encrypted, LongEncrypted, Md5Crypt.Hash;
    StripHpuxAging(hash);
    StripsOnce(old(CStr(hash[..])));
    var h := CStr(hash[..]);
    var hashLen := |h|;
    if hashLen == 0 {
      retval := if nullok then 0 else 1;
    } else if p == None || hash[0] == '*' || hash[0] == '!' {
      retval := 1;
    } else {
      var matched := false;
      if Md5Crypt.MAGIC <= h {
        var pp := Md5Crypt.CryptMd5(machine, p.value, h);
        if CStr(pp[..]) != h {
          pp := Md5Crypt.CryptMd5(machine, p.value, h);
        }
        matched := CStr(pp[..]) == h;
      } else if hash[0] != '$' && hashLen >= 13 {
        var pp := EncryptLong(crypt, p.value, h);
        LongEncryptedIs(crypt, p.value, h);
        if pp != null {
          EncryptedLength(crypt, p.value, h);
          if hashLen == 13 && |CStr(pp[..])| > hashLen {
            // The overwrite of what follows the 13th character is never reached.
            assert false;
          }
          matched := CStr(pp[..]) == h;
        }
      } else {
        var pp := crypt(p.value, h);
        matched := pp == Some(h);
      }
      retval := if matched then 0 else 1;
    }
  }

  /** A salt of 13 characters never gives more than 13. */
  lemma EncryptedLength(crypt: Crypt, p: bytes, h: bytes)
    requires !IsPrefixed(h) && Encrypted(crypt, p, h).Some?
    ensures |h| == 13 ==> |Encrypted(crypt, p, h).value| == 13
  {
    EncryptedShape(crypt, p, h);
    SegmentCountIs(|Buffered(p, h)|);
  }

  // ---- what is accepted ----

  /** What is left of an unprefixed hash of more than 13 characters: all of it up to the first character after
      the 13th that is no letter, figure, dot or slash. Everything else stays. */
  lemma StrippedExactly(h: bytes)
    ensures h != [] && h[0] != '$' && |h| > 13 ==>
              && Stripped(h) <= h && |Stripped(h)| >= 13
              && (forall i :: 13 <= i < |Stripped(h)| ==> h[i] in ALPHABET)
              && (|Stripped(h)| < |h| ==> h[|Stripped(h)|] !in ALPHABET)
    ensures h == [] || h[0] == '$' || |h| <= 13 ==> Stripped(h) == h
  {
    hide ALPHABET;
    if h != [] && h[0] != '$' && |h| > 13 {
      var run := LegalRun(h[13..]);
      forall i | 13 <= i < |Stripped(h)| ensures h[i] in ALPHABET {
        assert run[i - 13] == h[13..][i - 13];
        InAlphabet(h[i]);
      }
      if |run| < |h| - 13 {
        assert h[13..][|run|] == h[13 + |run|];
        InAlphabet(h[13 + |run|]);
      }
    }
  }

  /** The answer is 0 or 1. An empty hash is accepted exactly when that is allowed, whatever the password; no
      password is accepted for any other. */
  lemma EmptyHashOrPassword(crypt: Crypt, p: Option<bytes>, h: bytes, nullok: bool)
    ensures Verdict(crypt, p, h, nullok) == 0 || Verdict(crypt, p, h, nullok) == 1
    ensures Verdict(crypt, p, [], nullok) == 0 <==> nullok
    ensures h != [] ==> Verdict(crypt, None, h, nullok) == 1
  {
    hide Matches;
  }

  /** A hash of any other method is accepted exactly when libc gives it back for the password. */
  lemma AcceptsExactlyPrefixed(crypt: Crypt, p: bytes, h: bytes, nullok: bool)
    requires h != [] && h[0] == '$' && !("$1$" <= h)
    ensures Verdict(crypt, Some(p), h, nullok) == 0 <==> crypt(p, h) == Some(h)
  {
    hide Md5Crypt.Hash, Encrypted;
    NotStripped(h);
  }

  /** A "$1$" hash is accepted exactly when it is the hash of the password under some salt. */
  lemma AcceptsExactlyMd5Hashes(crypt: Crypt, p: bytes, h: bytes, nullok: bool)
    requires "$1$" <= h && IsCString(h)
    ensures Verdict(crypt, Some(p), h, nullok) == 0 <==> exists s :: IsCString(s) && h == Md5Crypt.Hash(p, s)
  {
    hide Verdict, Md5Crypt.Hash;
    Md5Verdict(crypt, p, h, nullok);
    if s :| IsCString(s) && h == Md5Crypt.Hash(p, s) {
      Md5Crypt.HashIsFixpoint(p, s);
    }
  }

  lemma Md5Verdict(crypt: Crypt, p: bytes, h: bytes, nullok: bool)
    requires Md5Crypt.MAGIC <= h
    ensures Verdict(crypt, Some(p), h, nullok) == 0 <==> Md5Crypt.Hash(p, h) == h
  {
    hide Md5Crypt.Hash, Encrypted;
    assert h[0] == Md5Crypt.MAGIC[0] == '$';
    NotStripped(h);
  }

  /** An unprefixed hash of 13 characters or more is accepted exactly when what is left of it after
      stripping is the encryption of the password under some legal salt. */
  lemma AcceptsExactlyEncryptions(crypt: Crypt, p: bytes, h: bytes, nullok: bool)
    requires |h| >= 13 && h[0] != '$'
    ensures Verdict(crypt, Some(p), h, nullok) == 0
       <==> exists s :: LegalSalt(s) && !IsPrefixed(s) && Encrypted(crypt, p, s) == Some(Stripped(h))
  {
    hide Encrypted;
    var g := Stripped(h);
    assert |g| >= 13 && g[0] == h[0];
    if Verdict(crypt, Some(p), h, nullok) == 0 {
      EncryptedShape(crypt, p, g);
      assert LegalSalt(g) && !IsPrefixed(g) && Encrypted(crypt, p, g) == Some(g);
    }
    if s :| LegalSalt(s) && !IsPrefixed(s) && Encrypted(crypt, p, s) == Some(g) {
      EncryptedIsFixpoint(crypt, p, s);
      EncryptedShape(crypt, p, s);
    }
  }

  /** Fewer than 13 characters without a prefix, or a locked account, are never accepted. */
  lemma NeverAccepted(crypt: Crypt, p: Option<bytes>, h: bytes, nullok: bool)
    requires h != [] && h[0] != '$' && (|h| < 13 || h[0] == '*' || h[0] == '!')
    ensures Verdict(crypt, p, h, nullok) == 1
  {
    if p.Some? {
      assert DesResult(h, crypt(p.value, h));
    }
  }

  /** The encryption of a password, its first 13 characters, and the encryption followed by anything
      that starts outside the alphabet are all accepted. */
  lemma StoredVariantsAccepted(crypt: Crypt, p: bytes, s: bytes, suffix: bytes, nullok: bool)
    requires !IsPrefixed(s) && Encrypted(crypt, p, s).Some?
    requires suffix != [] && !IsSaltChar(suffix[0])
    ensures var h := Encrypted(crypt, p, s).value;
            && |h| >= 13
            && Verdict(crypt, Some(p), h, nullok) == 0
            && Verdict(crypt, Some(p), h[..13], nullok) == 0
            && Verdict(crypt, Some(p), h + suffix, nullok) == 0
  {
    hide Encrypted;
    var h := Encrypted(crypt, p, s).value;
    EncryptedShape(crypt, p, s);
    EncryptedIsFixpoint(crypt, p, s);
    StrippedSuffix(h, []);
    StrippedSuffix(h, suffix);
    assert h + [] == h;
  }

  lemma StrippedSuffix(h: bytes, suffix: bytes)
    requires |h| >= 13 && AllSaltChars(h) && h[0] != '$'
    requires suffix == [] || !IsSaltChar(suffix[0])
    ensures Stripped(h + suffix) == h
  {
    if |h + suffix| > 13 {
      assert (h + suffix)[13..|h|] == h[13..];
      StrippedIs(h + suffix, |h|);
      assert (h + suffix)[..|h|] == h;
    }
  }

  /** A password is accepted for another one's "$1$" hash exactly when the final digests agree. */
  lemma AcceptsEqualDigests(crypt: Crypt, p: bytes, q: bytes, s: bytes, nullok: bool)
    ensures Verdict(crypt, Some(p), Md5Crypt.Hash(q, s), nullok) == 0
       <==> Md5Crypt.FinalDigest(p, Md5Crypt.TrueSalt(s)) == Md5Crypt.FinalDigest(q, Md5Crypt.TrueSalt(s))
  {
    hide Md5Crypt.FinalDigest, Md5Crypt.TrueSalt, Md5Crypt.Pack;
    var h := Md5Crypt.Hash(q, s);
    assert Md5Crypt.MAGIC <= h && h[0] == Md5Crypt.MAGIC[0] == '$';
    Md5Crypt.TrueSaltOfHash(q, s);
    Md5Crypt.HashesEqual(p, q, s);
  }
}
