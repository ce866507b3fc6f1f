/** What the monotone scanner catches, said about the password itself: by the differences of its codes and by the
    places of its characters on the keyboard. */
module MonotoneRuns {
  import opened CBytes
  import opened RunScanners

  // ---- stretches of steps of two kinds ----

  /** How many of the numbers from lo to hi - 1 have a property. */
  ghost function CountWhere(p: int -> bool, lo: int, hi: int): nat
    decreases hi - lo
  {
    if lo >= hi then 0 else CountWhere(p, lo, hi - 1) + if p(hi - 1) then 1 else 0
  }

  /** All steps from lo to hi - 1 are of the one kind or the other, and at least k - 1 are of the same. */
  ghost predicate Run(up: int -> bool, down: int -> bool, k: int, lo: int, hi: int) {
    && (forall i :: lo <= i < hi ==> up(i) || down(i))
    && (CountWhere(up, lo, hi) >= k - 1 || CountWhere(down, lo, hi) >= k - 1)
  }

  ghost predicate HasRun(up: int -> bool, down: int -> bool, k: int, n: int) {
    exists lo, hi :: 0 <= lo <= hi <= n && Run(up, down, k, lo, hi)
  }

  /** A sequence of moves says for every step of which kind it is. */
  ghost predicate Describes(s: seq<Move>, up: int -> bool, down: int -> bool) {
    forall i :: 0 <= i < |s| ==> (s[i] == Up <==> up(i)) && (s[i] == Down <==> down(i))
  }

  lemma {:induction false} CountsAgree(s: seq<Move>, m: Move, p: int -> bool, lo: nat, hi: nat)
    requires lo <= hi <= |s| && forall i :: 0 <= i < |s| ==> (s[i] == m <==> p(i))
    ensures Count(m, s[lo..hi]) == CountWhere(p, lo, hi)
  {
    if lo == hi {
    } else {
      CountsAgree(s, m, p, lo, hi - 1);
      assert s[lo..hi][..hi - lo - 1] == s[lo..hi - 1];
    }
  }

  lemma StretchIsRun(s: seq<Move>, up: int -> bool, down: int -> bool, k: int, lo: nat, hi: nat)
    requires Describes(s, up, down) && lo <= hi <= |s|
    ensures StretchAt(s, k, lo, hi) <==> Run(up, down, k, lo, hi)
  {
    CountsAgree(s, Up, up, lo, hi);
    CountsAgree(s, Down, down, lo, hi);
    hide Count, CountWhere;
    assert forall i :: lo <= i < hi ==> s[lo..hi][i - lo] == s[i];
    assert Other !in s[lo..hi] <==> forall i :: lo <= i < hi ==> s[i] != Other;
  }

  lemma StretchesAreRuns(s: seq<Move>, up: int -> bool, down: int -> bool, k: int)
    requires Describes(s, up, down)
    ensures HasStretch(s, k) <==> HasRun(up, down, k, |s|)
  {
    hide StretchAt, Run, Describes;
    if HasStretch(s, k) {
      var lo, hi :| hi <= |s| && StretchAt(s, k, lo, hi);
      StretchBounds(s, k, lo, hi);
      StretchIsRun(s, up, down, k, lo, hi);
    }
    if lo, hi :| 0 <= lo <= hi <= |s| && Run(up, down, k, lo, hi) {
      StretchIsRun(s, up, down, k, lo, hi);
    }
  }

  lemma StretchBounds(s: seq<Move>, k: int, lo: int, hi: int)
    requires StretchAt(s, k, lo, hi)
    ensures 0 <= lo <= hi <= |s|
  {
  }

  // ---- codes ----

  /** The next code. Bytes from 128 on are negative: 127 is the highest code, and 255 comes before 0. */
  predicate IsNextCode(c: byte, d: byte) {
    (d as int == c as int + 1 && c as int != 127) || (c as int == 255 && d as int == 0)
  }

  predicate Rises(pw: bytes, i: int) {
    0 <= i < |pw| - 1 && IsNextCode(pw[i], pw[i + 1])
  }

  predicate Falls(pw: bytes, i: int) {
    0 <= i < |pw| - 1 && IsNextCode(pw[i + 1], pw[i])
  }

  lemma CodesDescribed(pw: bytes)
    ensures Describes(CodeMoves(pw), i => Rises(pw, i), i => Falls(pw, i))
  {
  }

  // ---- keys ----

  /** Key j of row r is the most recent key at position i: it is that of position p, and no character after p is
      on the keyboard. */
  ghost predicate IsKeyAt(pw: bytes, i: int, p: int, r: int, j: int) {
    && 0 <= p <= i < |pw| && OnRow(pw[p], r, j)
    && forall q, r', j' :: p < q <= i ==> !OnRow(pw[q], r', j')
  }

  /** The next character is the key to the right of the most recent one. */
  ghost predicate StepsRight(pw: bytes, i: int) {
    && 0 <= i < |pw| - 1
    && exists p, r, j :: IsKeyAt(pw, i, p, r, j) && j + 1 < |Row(r)| && pw[i + 1] == Row(r)[j + 1]
  }

  /** It is the key to the left, and the most recent one has a key to the right too. */
  ghost predicate StepsLeft(pw: bytes, i: int) {
    && 0 <= i < |pw| - 1
    && exists p, r, j :: IsKeyAt(pw, i, p, r, j) && 0 < j && j + 1 < |Row(r)| && pw[i + 1] == Row(r)[j - 1]
  }

  lemma {:induction false} NoKeyYet(pw: bytes, i: nat)
    requires i < |pw| && forall q, r, j :: 0 <= q <= i ==> !OnRow(pw[q], r, j)
    ensures KeysAt(pw, i) == Keys(NUL, NUL)
  {
    hide OnRow;
    if i == 0 {
    } else {
      NoKeyYet(pw, i - 1);
    }
  }

  lemma {:induction false} LastKey(pw: bytes, i: nat) returns (found: bool, p: int, r: int, j: int)
    requires i < |pw|
    ensures found ==> IsKeyAt(pw, i, p, r, j)
    ensures !found ==> forall q, r', j' :: 0 <= q <= i ==> !OnRow(pw[q], r', j')
  {
    hide OnRow;
    if r', j' :| OnRow(pw[i], r', j') {
      return true, i, r', j';
    }
    if i == 0 {
      return false, 0, 0, 0;
    }
    found, p, r, j := LastKey(pw, i - 1);
  }

  lemma KeyIsUnique(pw: bytes, i: int, p: int, r: int, j: int, p': int, r': int, j': int)
    requires IsKeyAt(pw, i, p, r, j) && IsKeyAt(pw, i, p', r', j')
    ensures p == p' && r == r' && j == j'
  {
    hide OnRow;
    KeysAreDistinct(pw[p], r, j, r', j');
  }

  lemma BesideIs(r: nat, j: nat)
    requires r < ROW_COUNT && j < |Row(r)|
    ensures Beside(r, j).next != NUL <==> j + 1 < |Row(r)|
    ensures j + 1 < |Row(r)| ==> Beside(r, j).next == Row(r)[j + 1]
    ensures Beside(r, j).last != NUL <==> 0 < j
    ensures 0 < j ==> Beside(r, j).last == Row(r)[j - 1]
    ensures 0 < j && j + 1 < |Row(r)| ==> Row(r)[j + 1] != Row(r)[j - 1]
  {
    hide Row;
    if j + 1 < |Row(r)| {
      RowsHaveNoNul(r, j + 1);
    }
    if 0 < j {
      RowsHaveNoNul(r, j - 1);
    }
    if 0 < j && j + 1 < |Row(r)| && Row(r)[j + 1] == Row(r)[j - 1] {
      KeysAreDistinct(Row(r)[j + 1], r, j + 1, r, j - 1);
    }
  }

  lemma KeyStepIs(pw: bytes, i: nat)
    requires i < |pw| - 1 && NUL !in pw
    ensures KeyMove(KeysAt(pw, i), pw[i + 1]) == Up <==> StepsRight(pw, i)
    ensures KeyMove(KeysAt(pw, i), pw[i + 1]) == Down <==> StepsLeft(pw, i)
  {
    hide OnRow, Row, KeysAt, Beside;
    var found, p, r, j := LastKey(pw, i);
    if found {
      KeyInRange(pw[p], r, j);
      KeysAreMostRecent(pw, i, p, r, j);
      BesideIs(r, j);
      forall p', r', j' | IsKeyAt(pw, i, p', r', j') ensures p' == p && r' == r && j' == j {
        KeyIsUnique(pw, i, p, r, j, p', r', j');
      }
    } else {
      NoKeyYet(pw, i);
    }
  }

  lemma KeyInRange(c: byte, r: int, j: int)
    requires OnRow(c, r, j)
    ensures 0 <= r < ROW_COUNT && 0 <= j < |Row(r)|
  {
  }

  lemma KeysDescribed(pw: bytes)
    requires NUL !in pw
    ensures Describes(KeyMoves(pw), i => StepsRight(pw, i), i => StepsLeft(pw, i))
  {
    hide KeysAt, StepsRight, StepsLeft, KeyMove;
    forall i | 0 <= i < |KeyMoves(pw)|
      ensures KeyMoves(pw)[i] == Up <==> StepsRight(pw, i)
      ensures KeyMoves(pw)[i] == Down <==> StepsLeft(pw, i)
    {
      KeyStepIs(pw, i);
    }
  }

  // ---- the keyboard ----

  /** What a key gives together with Shift. */
  function Shifted(c: byte): byte {
    if 'a' <= c <= 'z' then c - 'a' + 'A'
    else match c
      case '[' => '{' case ']' => '}' case ';' => ':' case '\'' => '"' case '\\' => '|'
      case ',' => '<' case '.' => '>' case '/' => '?'
      case '1' => '!' case '2' => '@' case '3' => '#' case '4' => '$' case '5' => '%' case '6' => '^'
      case '7' => '&' case '8' => '*' case '9' => '(' case '0' => ')' case '-' => '_' case '=' => '+'
      case _ => c
  }

  function AllShifted(keys: bytes): bytes {
    seq(|keys|, i requires 0 <= i < |keys| => Shifted(keys[i]))
  }

  /** The first row is the one of the figures with Shift, the next three are the last three with Shift, and those
      are the keys of three rows from left to right. */
  lemma RowsAre()
    ensures Row(0) == AllShifted("1234567890-=")
    ensures Row(1) == AllShifted("qwertyuiop[]") && Row(4) == "qwertyuiop[]"
    ensures Row(2) == AllShifted("asdfghjkl;'\\") && Row(5) == "asdfghjkl;'\\"
    ensures Row(3) == AllShifted("zxcvbnm,./") && Row(6) == "zxcvbnm,./"
  {
  }

  // ---- the scanner ----

  /** The scanner says yes exactly when some stretch of the password has only steps to a neighbouring code, at
      least k - 1 of them up or at least k - 1 of them down, or only steps to a neighbouring key, at least k - 1
      of them to the right or at least k - 1 to the left. */
  lemma MonotoneIs(pw: bytes, k: int)
    requires IsCString(pw)
    ensures Monotone(pw, k)
       <==> |pw| >= 2
            && (HasRun(i => Rises(pw, i), i => Falls(pw, i), k, |pw| - 1)
                || HasRun(i => StepsRight(pw, i), i => StepsLeft(pw, i), k, |pw| - 1))
  {
    hide HasRun, HasStretch, Describes, CodeMoves, KeyMoves;
    CodesDescribed(pw);
    KeysDescribed(pw);
    StretchesAreRuns(CodeMoves(pw), i => Rises(pw, i), i => Falls(pw, i), k);
    StretchesAreRuns(KeyMoves(pw), i => StepsRight(pw, i), i => StepsLeft(pw, i), k);
  }

  /** A password without neighbours that are one code apart or one key apart is never caught. */
  lemma NothingToCatch(pw: bytes, k: int)
    requires k >= 2 && IsCString(pw)
    requires forall i :: 0 <= i < |pw| - 1 ==> !IsNextCode(pw[i], pw[i + 1]) && !IsNextCode(pw[i + 1], pw[i])
    requires forall i :: 0 <= i < |pw| - 1 ==> !StepsRight(pw, i) && !StepsLeft(pw, i)
    ensures !Monotone(pw, k)
  {
    hide HasStretch, StepsRight, StepsLeft, IsNextCode, KeyMoves, CodeMoves;
    CodesDescribed(pw);
    KeysDescribed(pw);
    NoMovesNoStretch(CodeMoves(pw), k);
    NoMovesNoStretch(KeyMoves(pw), k);
  }
}
