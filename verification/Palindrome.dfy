/** The palindrome scan of lib/deepin_pw_check.c. */
module Palindrome {
  import opened CBytes

  predicate IsMirror(s: bytes) {
    forall i :: 0 <= i < |s| ==> s[i] == s[|s| - 1 - i]
  }

  method IsPalindrome(pw: bytes, minNum: int) returns (r: bool)
    ensures r <==> |pw| >= minNum * 2 && IsMirror(pw)
  {
    var length := |pw|;
    if length < minNum * 2 {
      return false;
    }
    var i := 0;
    while i < length - 1
      invariant 0 <= i && (i == 0 || i < length)
      invariant forall k :: 0 <= k < i ==> pw[k] == pw[length - 1 - k]
    {
      if pw[i] != pw[length - i - 1] {
        return false;
      }
      i := i + 1;
    }
    if length > 1 {
      assert pw[0] == pw[length - 1 - 0];
    }
    return true;
  }

  /** A mirrored stretch of len characters, at least 2 * n, starts at i. */
  ghost predicate MirrorAt(pw: bytes, n: int, i: int, len: int) {
    0 <= i && 0 <= len && 2 * n <= len && i + len <= |pw| && IsMirror(pw[i..i + len])
  }

  ghost predicate HasPalindrome(pw: bytes, n: int) {
    exists i, len :: MirrorAt(pw, n, i, len)
  }

  /** Which stretches the scan looks at: those that start before 2 * n, and at 2 * n those that are
      longer than 2 * n or end a password of exactly 4 * n characters. */
  predicate Reached(length: int, n: int, i: int, len: int) {
    i < 2 * n || (i == 2 * n && (len > 2 * n || length == 4 * n))
  }

  ghost predicate Caught(pw: bytes, n: int) {
    exists i, len :: MirrorAt(pw, n, i, len) && Reached(|pw|, n, i, len)
  }

  /** The copy that the scan tests: `pw_length - b_p` bytes from a_p on, up to the terminator. */
  function Window(pw: bytes, a: nat, b: nat): bytes
    requires a <= |pw| && b <= |pw|
  {
    pw[a..if a <= b then a + |pw| - b else |pw|]
  }

  /** What it says about the stretch from a on when the copy is no palindrome. */
  lemma CopyIsStretch(pw: bytes, n: int, a: nat, b: nat)
    requires a <= |pw| && b <= |pw|
    ensures var tmp, len := Window(pw, a, b), if a <= b then |pw| - b else |pw| - a;
            && |tmp| == len && (len >= n * 2 && IsMirror(tmp) <==> MirrorAt(pw, n, a, len))
  {
    assert Window(pw, a, b) == if a <= b then pw[a..a + (|pw| - b)] else pw[a..a + (|pw| - a)];
  }

  lemma TooShort(pw: bytes, n: int, i: int, len: int)
    requires len < 2 * n || i + len > |pw|
    ensures !MirrorAt(pw, n, i, len)
  {
  }

  lemma StretchFits(pw: bytes, n: int, i: int, len: int)
    requires MirrorAt(pw, n, i, len)
    ensures 0 <= i <= i + len <= |pw| && 2 * n <= len
  {
  }

  /** Without a limit one character is a mirrored stretch, and so is nothing at all. */
  lemma SmallIsMirror(pw: bytes, n: int)
    requires n <= 0
    ensures MirrorAt(pw, n, 0, 0) && (pw != [] ==> MirrorAt(pw, n, 0, 1))
  {
  }

  /** The scan says yes exactly for a mirrored stretch that it reaches; with a limit of zero or less
      it always says yes. */
  method IncludesPalindrome(pw: bytes, n: int) returns (r: bool)
    ensures r <==> n <= 0 || Caught(pw, n)
  {
    hide MirrorAt, IsMirror;
    if n <= 0 {
      SmallIsMirror(pw, n);
    }
    var a, b, length := 0, 0, |pw|;
    while true
      invariant 0 <= a && 0 <= b && (a + b < length || a == b == 0)
      invariant b == 0 || length - b >= 2 * n
      invariant n >= 1 ==> a <= 2 * n
      invariant n <= 0 ==> a == 0 && forall len :: length - b < len <= length ==> !MirrorAt(pw, n, 0, len)
      invariant n >= 1 ==> forall i, len :: 0 <= i < a && i + len <= length ==> !MirrorAt(pw, n, i, len)
      invariant n >= 1 ==> forall len :: length - b < len <= length - a ==> !MirrorAt(pw, n, a, len)
      invariant n >= 1 && b > 0 ==> !MirrorAt(pw, n, a, length - a)
      decreases length - a, length - b
    {
      var tmp := Window(pw, a, b);
      var hit := IsPalindrome(tmp, n);
      CopyIsStretch(pw, n, a, b);
      if hit {
        return true;
      }
      b := b + 1;
      if length - b < n * 2 {
        forall len | len <= length - b ensures !MirrorAt(pw, n, a, len) {
          TooShort(pw, n, a, len);
        }
        a := a + 1;
        b := 0;
      }
      if a + b >= length {
        break;
      }
    }
    forall i, len | MirrorAt(pw, n, i, len) ensures 0 <= i <= i + len <= length && 2 * n <= len {
      StretchFits(pw, n, i, len);
    }
    return false;
  }

  // ---- what the scan misses ----

  /** Everything the scan reports is there; in a password of at most 4 * n characters it reports
      everything. */
  lemma CompleteWhenShort(pw: bytes, n: int)
    requires n >= 1
    ensures Caught(pw, n) ==> HasPalindrome(pw, n)
    ensures |pw| <= 4 * n && HasPalindrome(pw, n) ==> Caught(pw, n)
  {
    if i, len :| MirrorAt(pw, n, i, len) && |pw| <= 4 * n {
      assert Reached(|pw|, n, i, len);
    }
  }

  /** 2 * n + 1 letters without mirrored stretches, then nothing but 'd'. */
  function LateRun(length: nat, n: nat): (pw: bytes)
    ensures |pw| == length
  {
    seq(length, i => if i > 2 * n then 'd' else Letter(i % 3))
  }

  function Letter(k: int): byte {
    if k == 0 then 'a' else if k == 1 then 'b' else 'c'
  }

  lemma LettersDiffer(k: nat)
    ensures Letter(k % 3) != Letter((k + 1) % 3) && Letter(k % 3) != Letter((k + 2) % 3)
  {
  }

  lemma LateRunIsMissed(length: nat, n: nat)
    requires 1 <= n && 4 * n < length
    ensures !Caught(LateRun(length, n), n)
  {
    var pw := LateRun(length, n);
    forall i, len | MirrorAt(pw, n, i, len) ensures !Reached(length, n, i, len) {
      if i <= 2 * n {
        NoEarlyMirror(length, n, i, len);
      }
    }
  }

  lemma NoEarlyMirror(length: nat, n: nat, i: nat, len: nat)
    requires 1 <= n && 4 * n < length && i <= 2 * n <= len && i + len <= length
    ensures !IsMirror(LateRun(length, n)[i..i + len])
  {
    var pw := LateRun(length, n);
    var s := pw[i..i + len];
    assert s[0] == pw[i] && s[len - 1] == pw[i + len - 1];
    if IsMirror(s) {
      // The other end of the stretch is a letter too, so the two characters next to its middle are.
      var j := (len - 1) / 2;
      assert s[j] == pw[i + j] == Letter((i + j) % 3);
      assert s[len - 1 - j] == pw[i + len - 1 - j] && (len - 1 - j == j || len - 1 - j == j + 1);
      assert len - 1 - j == j ==> s[j - 1] == pw[i + j - 1] && s[j + 1] == pw[i + j + 1];
      LettersDiffer(i + j);
      LettersDiffer(if j > 0 then i + j - 1 else 0);
    }
  }

  lemma LateRunMirrors(length: nat, n: nat, m: nat)
    requires 1 <= n <= m && 2 * n + 2 * m < length
    ensures MirrorAt(LateRun(length, n), m, 2 * n + 1, length - 2 * n - 1)
  {
  }

  /** The scan is complete for all passwords of a length exactly when that is at most 4 * n. */
  lemma CompleteExactlyWhenShort(length: nat, n: int)
    requires n >= 1
    ensures (forall pw: bytes :: |pw| == length && HasPalindrome(pw, n) ==> Caught(pw, n)) <==> length <= 4 * n
  {
    if length <= 4 * n {
      forall pw: bytes | |pw| == length && HasPalindrome(pw, n) ensures Caught(pw, n) {
        CompleteWhenShort(pw, n);
      }
    } else {
      LateRunIsMissed(length, n);
      LateRunMirrors(length, n, n);
    }
  }

  /** Raising the limit from n to m never catches a password of a length that was not caught before,
      exactly when that length is at most 2 * n + 2 * m. */
  lemma RaisingIsSafeExactlyWhenShort(length: nat, n: int, m: int)
    requires 1 <= n < m
    ensures (forall pw: bytes :: |pw| == length && Caught(pw, m) ==> Caught(pw, n)) <==> length <= 2 * n + 2 * m
  {
    if length <= 2 * n + 2 * m {
      forall pw: bytes | |pw| == length && Caught(pw, m) ensures Caught(pw, n) {
        RaisedLimit(pw, n, m);
      }
    } else {
      LateRunIsMissed(length, n);
      LateRunMirrors(length, n, m);
      assert Reached(length, m, 2 * n + 1, length - 2 * n - 1);
    }
  }

  lemma RaisedLimit(pw: bytes, n: int, m: int)
    requires 1 <= n < m && |pw| <= 2 * n + 2 * m && Caught(pw, m)
    ensures Caught(pw, n)
  {
    var i, len :| MirrorAt(pw, m, i, len) && Reached(|pw|, m, i, len);
    assert MirrorAt(pw, n, i, len) && Reached(|pw|, n, i, len);
  }

  /** Where the scan ends, for limit 1: "cc" from position 2 on is seen when it ends four characters, but not
      with one more behind it; three mirrored characters from there are seen, two from position 3 on are not. */
  lemma ScanEnds()
    ensures Caught("abcc", 1) && !Caught("abccd", 1) && Caught("abcdc", 1) && !Caught("abcdd", 1)
  {
    assert "abcc"[2..4] == "cc" && "abcdc"[2..5] == "cdc";
    assert MirrorAt("abcc", 1, 2, 2) && Reached(4, 1, 2, 2);
    assert MirrorAt("abcdc", 1, 2, 3) && Reached(5, 1, 2, 3);
    NoMirrors("abccd");
    NoMirrors("abcdd");
  }

  lemma NoMirrors(pw: bytes)
    requires pw == "abccd" || pw == "abcdd"
    ensures !Caught(pw, 1)
  {
    forall i, len | MirrorAt(pw, 1, i, len) ensures !Reached(5, 1, i, len) {
      var s := pw[i..i + len];
      assert s[0] == pw[i] && s[len - 1] == pw[i + len - 1];
    }
  }

  /** A higher limit can catch what a lower one misses. */
  lemma HigherLimitCatchesMore()
    ensures !Caught("abcdeed", 1) && Caught("abcdeed", 2)
  {
    var pw: bytes := "abcdeed";
    assert pw[3..7] == "deed";
    assert MirrorAt(pw, 2, 3, 4) && Reached(7, 2, 3, 4);
    forall i, len | MirrorAt(pw, 1, i, len) ensures !Reached(7, 1, i, len) {
      var s := pw[i..i + len];
      assert s[0] == pw[i] && s[len - 1] == pw[i + len - 1];
    }
  }
}
