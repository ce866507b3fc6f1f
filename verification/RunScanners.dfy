/** The scanners of lib/deepin_pw_check.c that count runs: code steps, keyboard steps, equal characters. */
module RunScanners {
  import opened CBytes

  // ---- runs of steps ----

  /** What a scanner makes of two neighbouring characters. */
  datatype Move = Up | Down | Other

  function Count(m: Move, s: seq<Move>): nat {
    if s == [] then 0 else Count(m, s[..|s| - 1]) + if s[|s| - 1] == m then 1 else 0
  }

  /** Moves lo to hi - 1 go up or down, and at least k - 1 of them go the same way. */
  ghost predicate StretchAt(s: seq<Move>, k: int, lo: int, hi: int) {
    && 0 <= lo <= hi <= |s| && Other !in s[lo..hi]
    && (Count(Up, s[lo..hi]) >= k - 1 || Count(Down, s[lo..hi]) >= k - 1)
  }

  ghost predicate HasStretchBefore(s: seq<Move>, k: int, i: nat) {
    exists lo, hi :: hi <= i && StretchAt(s, k, lo, hi)
  }

  /** A longer stretch counts no less. */
  lemma {:induction false} CountOfPart(m: Move, s: seq<Move>, lo: nat, hi: nat)
    requires lo <= hi <= |s|
    ensures Count(m, s[lo..hi]) <= Count(m, s[..hi])
  {
    if lo == hi {
    } else {
      CountOfPart(m, s, lo, hi - 1);
      assert s[lo..hi][..hi - lo - 1] == s[lo..hi - 1] && s[..hi][..hi - 1] == s[..hi - 1];
    }
  }

  lemma {:induction false} CountAll(m: Move, s: seq<Move>)
    requires forall i :: 0 <= i < |s| ==> s[i] == m
    ensures Count(m, s) == |s|
  {
    if s == [] {
    } else {
      CountAll(m, s[..|s| - 1]);
    }
  }

  /** The two counters of one scanner: they start at 1 and are reset together. `start` is the place
      after the last reset. */
  ghost predicate Counting(s: seq<Move>, i: nat, up: int, down: int, start: nat) {
    && start <= i <= |s| && Other !in s[start..i]
    && up == 1 + Count(Up, s[start..i]) && down == 1 + Count(Down, s[start..i])
    && (start > 0 ==> s[start - 1] == Other)
  }

  /** What one turn of the loop does to the counters. */
  lemma CountingStep(s: seq<Move>, i: nat, up: int, down: int, start: nat)
    requires Counting(s, i, up, down, start) && i < |s|
    ensures s[i] == Up ==> Counting(s, i + 1, up + 1, down, start)
    ensures s[i] == Down ==> Counting(s, i + 1, up, down + 1, start)
    ensures s[i] == Other ==> Counting(s, i + 1, 1, 1, i + 1)
  {
    assert s[start..i + 1][..i - start] == s[start..i];
    assert s[start..i + 1] == s[start..i] + [s[i]];
    assert s[i + 1..i + 1] == [];
  }

  /** A counter reaches k exactly when some stretch that ends here does. */
  lemma CountersAreMaximal(s: seq<Move>, i: nat, up: int, down: int, start: nat, k: int)
    requires Counting(s, i, up, down, start)
    ensures up >= k || down >= k <==> exists lo :: StretchAt(s, k, lo, i)
  {
    hide Count;
    forall lo | 0 <= lo < start ensures Other in s[lo..i] {
      assert s[lo..i][start - 1 - lo] == Other;
    }
    forall lo | StretchAt(s, k, lo, i) ensures up >= k || down >= k {
      CountOfPart(Up, s[start..i], lo - start, i - start);
      CountOfPart(Down, s[start..i], lo - start, i - start);
      assert s[start..i][lo - start..i - start] == s[lo..i] && s[start..i][..i - start] == s[start..i];
    }
    if up >= k || down >= k {
      assert StretchAt(s, k, start, i);
    }
  }

  /** A higher limit never catches more. */
  lemma StretchesAreAntitone(s: seq<Move>, k: int, k': int, i: nat)
    requires k <= k' && HasStretchBefore(s, k', i)
    ensures HasStretchBefore(s, k, i)
  {
    var lo, hi :| hi <= i && StretchAt(s, k', lo, hi);
    assert StretchAt(s, k, lo, hi);
  }

  // ---- codes ----

  /** A `char` is signed: the upper half of the codes is negative. */
  function Code(c: byte): int {
    if c as int < 128 then c as int else c as int - 256
  }

  function CodeMove(c: byte, d: byte): Move {
    if Code(c) == Code(d) - 1 then Up else if Code(c) == Code(d) + 1 then Down else Other
  }

  function CodeMoves(pw: bytes): (s: seq<Move>)
    ensures |s| == if pw == [] then 0 else |pw| - 1
  {
    if pw == [] then [] else seq(|pw| - 1, i requires 0 <= i < |pw| - 1 => CodeMove(pw[i], pw[i + 1]))
  }

  // ---- the keyboard ----

  const ROW0: bytes := "!@#$%^&*()_+"
  const ROW1: bytes := "QWERTYUIOP{}"
  const ROW2: bytes := "ASDFGHJKL:\"|"
  const ROW3: bytes := "ZXCVBNM<>?"
  const ROW4: bytes := "qwertyuiop[]"
  const ROW5: bytes := "asdfghjkl;'\\"
  const ROW6: bytes := "zxcvbnm,./"

  const ROW_COUNT := 7

  function Row(r: nat): bytes
    requires r < ROW_COUNT
  {
    match r case 0 => ROW0 case 1 => ROW1 case 2 => ROW2 case 3 => ROW3 case 4 => ROW4 case 5 => ROW5 case _ => ROW6
  }

  predicate OnRow(c: byte, r: int, j: int) {
    0 <= r < ROW_COUNT && 0 <= j < |Row(r)| && Row(r)[j] == c
  }

  lemma Row0Apart(c: byte, j: int, r: int, j': int)
    requires OnRow(c, 0, j) && OnRow(c, r, j')
    ensures r == 0 && j == j'
  {
  }

  lemma Row1Apart(c: byte, j: int, r: int, j': int)
    requires OnRow(c, 1, j) && OnRow(c, r, j')
    ensures r == 1 && j == j'
  {
  }

  lemma Row2Apart(c: byte, j: int, r: int, j': int)
    requires OnRow(c, 2, j) && OnRow(c, r, j')
    ensures r == 2 && j == j'
  {
  }

  lemma Row3Apart(c: byte, j: int, r: int, j': int)
    requires OnRow(c, 3, j) && OnRow(c, r, j')
    ensures r == 3 && j == j'
  {
  }

  lemma Row4Apart(c: byte, j: int, r: int, j': int)
    requires OnRow(c, 4, j) && OnRow(c, r, j')
    ensures r == 4 && j == j'
  {
  }

  lemma Row5Apart(c: byte, j: int, r: int, j': int)
    requires OnRow(c, 5, j) && OnRow(c, r, j')
    ensures r == 5 && j == j'
  {
  }

  lemma Row6Apart(c: byte, j: int, r: int, j': int)
    requires OnRow(c, 6, j) && OnRow(c, r, j')
    ensures r == 6 && j == j'
  {
  }

  /** No character is on the keyboard twice. */
  lemma KeysAreDistinct(c: byte, r: int, j: int, r': int, j': int)
    requires OnRow(c, r, j) && OnRow(c, r', j')
    ensures r == r' && j == j'
  {
    hide Row;
    match r
    case 0 => Row0Apart(c, j, r', j');
    case 1 => Row1Apart(c, j, r', j');
    case 2 => Row2Apart(c, j, r', j');
    case 3 => Row3Apart(c, j, r', j');
    case 4 => Row4Apart(c, j, r', j');
    case 5 => Row5Apart(c, j, r', j');
    case _ => Row6Apart(c, j, r', j');
  }

  /** A key's right and left neighbours, NUL at the end of its row. */
  datatype Keys = Keys(next: byte, last: byte)

  function Beside(r: nat, j: nat): Keys
    requires r < ROW_COUNT && j < |Row(r)|
  {
    Keys(if j < |Row(r)| - 1 then Row(r)[j + 1] else NUL, if j > 0 then Row(r)[j - 1] else NUL)
  }

  /** The neighbours of c, or those from before when c is on no row. */
  ghost function Adjacent(c: byte, before: Keys): Keys {
    if exists r, j :: OnRow(c, r, j) then var r, j :| OnRow(c, r, j); Beside(r, j) else before
  }

  lemma AdjacentOnRow(c: byte, before: Keys, r: nat, j: nat)
    requires OnRow(c, r, j)
    ensures Adjacent(c, before) == Beside(r, j)
  {
    hide Row;
    var r', j' :| OnRow(c, r', j') && Adjacent(c, before) == Beside(r', j');
    KeysAreDistinct(c, r, j, r', j');
  }

  /** The search through the rows, which leaves its out-parameters alone when it finds nothing. */
  method GetAdjacentCharacter(c: byte, next0: byte, last0: byte) returns (next: byte, last: byte)
    ensures Keys(next, last) == Adjacent(c, Keys(next0, last0))
  {
    hide Row;
    next, last := next0, last0;
    for i := 0 to ROW_COUNT
      invariant next == next0 && last == last0
      invariant forall r, j :: r < i ==> !OnRow(c, r, j)
    {
      var row := Row(i);
      var length := |row|;
      for j := 0 to length
        invariant next == next0 && last == last0
        invariant forall k :: 0 <= k < j ==> row[k] != c
      {
        if row[j] == c {
          last := if j > 0 then row[j - 1] else NUL;
          next := if j < length - 1 then row[j + 1] else NUL;
          AdjacentOnRow(c, Keys(next0, last0), i, j);
          return;
        }
      }
    }
  }

  /** The neighbours in force at position i. */
  ghost function KeysAt(pw: bytes, i: nat): Keys
    requires i < |pw|
  {
    Adjacent(pw[i], if i == 0 then Keys(NUL, NUL) else KeysAt(pw, i - 1))
  }

  /** They are those of the most recent character that is on a row, if there is one. */
  lemma {:induction false} KeysAreMostRecent(pw: bytes, i: nat, p: nat, r: nat, j: nat)
    requires p <= i < |pw| && OnRow(pw[p], r, j)
    requires forall q, r', j' :: p < q <= i ==> !OnRow(pw[q], r', j')
    ensures KeysAt(pw, i) == Beside(r, j)
  {
    hide Row, Beside, OnRow;
    if p < i {
      KeysAreMostRecent(pw, i - 1, p, r, j);
    } else {
      AdjacentOnRow(pw[i], if i == 0 then Keys(NUL, NUL) else KeysAt(pw, i - 1), r, j);
    }
  }

  function KeyMove(k: Keys, d: byte): Move {
    if k.next != NUL && d == k.next then Up else if k.next != NUL && d == k.last then Down else Other
  }

  ghost function KeyMoves(pw: bytes): (s: seq<Move>)
    ensures |s| == if pw == [] then 0 else |pw| - 1
  {
    if pw == [] then [] else seq(|pw| - 1, i requires 0 <= i < |pw| - 1 => KeyMove(KeysAt(pw, i), pw[i + 1]))
  }

  // ---- the monotone scanner ----

  ghost predicate HasStretch(s: seq<Move>, k: int) {
    HasStretchBefore(s, k, |s|)
  }

  ghost predicate Monotone(pw: bytes, k: int) {
    |pw| >= 2 && (HasStretch(CodeMoves(pw), k) || HasStretch(KeyMoves(pw), k))
  }

  lemma ShortStretch(s: seq<Move>, k: int)
    ensures (exists lo, hi :: hi <= 0 && StretchAt(s, k, lo, hi)) ==> k <= 1
  {
  }

  /** The check at the end of a turn of the loop. */
  lemma StretchBeforeNext(s: seq<Move>, i: nat, up: int, down: int, start: nat, k: int)
    requires Counting(s, i + 1, up, down, start)
    requires i > 0 ==> !HasStretchBefore(s, k, i)
    ensures up >= k || down >= k <==> HasStretchBefore(s, k, i + 1)
  {
    hide StretchAt;
    CountersAreMaximal(s, i + 1, up, down, start, k);
    ShortStretch(s, k);
  }

  /** The code counters. The code's names: "increase" counts steps down to a lower code. */
  method CountCodes(pw: bytes, i: nat, increase0: int, decrease0: int, ghost start0: nat)
    returns (increase: int, decrease: int, ghost start: nat)
    requires i < |pw| - 1 && Counting(CodeMoves(pw), i, decrease0, increase0, start0)
    ensures Counting(CodeMoves(pw), i + 1, decrease, increase, start)
  {
    hide Counting;
    CountingStep(CodeMoves(pw), i, decrease0, increase0, start0);
    increase, decrease, start := increase0, decrease0, start0;
    if Code(pw[i]) == Code(pw[i + 1]) + 1 {
      increase := increase + 1;
    } else if Code(pw[i]) == Code(pw[i + 1]) - 1 {
      decrease := decrease + 1;
    } else {
      decrease, increase, start := 1, 1, i + 1;
    }
  }

  /** The keyboard counters, with the neighbours carried along. */
  method CountKeys(pw: bytes, i: nat, next0: byte, last0: byte, increase0: int, decrease0: int, ghost start0: nat)
    returns (next: byte, last: byte, increase: int, decrease: int, ghost start: nat)
    requires i < |pw| - 1 && Counting(KeyMoves(pw), i, increase0, decrease0, start0)
    requires Keys(next0, last0) == if i == 0 then Keys(NUL, NUL) else KeysAt(pw, i - 1)
    ensures Counting(KeyMoves(pw), i + 1, increase, decrease, start) && Keys(next, last) == KeysAt(pw, i)
  {
    hide Counting, Adjacent;
    CountingStep(KeyMoves(pw), i, increase0, decrease0, start0);
    increase, decrease, start := increase0, decrease0, start0;
    next, last := GetAdjacentCharacter(pw[i], next0, last0);
    if next != NUL && pw[i + 1] == next {
      increase := increase + 1;
    } else if next != NUL && pw[i + 1] == last {
      decrease := decrease + 1;
    } else {
      increase, decrease, start := 1, 1, i + 1;
    }
  }

  /** The scanner says yes exactly when a stretch of code steps or of keyboard steps is long enough. */
  method IsMonotoneCharacter(pw: bytes, monotoneNum: int) returns (r: bool)
    ensures r <==> Monotone(pw, monotoneNum)
  {
    hide StretchAt, Counting, HasStretchBefore, KeysAt, CodeMoves, KeyMoves;
    ghost var codes, keys := CodeMoves(pw), KeyMoves(pw);
    var length := |pw|;
    var increase, decrease, keyIncrease, keyDecrease := 1, 1, 1, 1;
    ghost var codeStart, keyStart := 0, 0;
    var next, last := NUL, NUL;
    CountingStart(codes);
    CountingStart(keys);
    var i := 0;
    while i < length - 1
      invariant 0 <= i && (i == 0 || i <= length - 1)
      invariant Counting(codes, i, decrease, increase, codeStart)
      invariant Counting(keys, i, keyIncrease, keyDecrease, keyStart)
      invariant Keys(next, last) == if i == 0 then Keys(NUL, NUL) else KeysAt(pw, i - 1)
      invariant i > 0 ==> !HasStretchBefore(codes, monotoneNum, i) && !HasStretchBefore(keys, monotoneNum, i)
    {
      increase, decrease, codeStart := CountCodes(pw, i, increase, decrease, codeStart);
      next, last, keyIncrease, keyDecrease, keyStart :=
        CountKeys(pw, i, next, last, keyIncrease, keyDecrease, keyStart);
      StretchBeforeNext(codes, i, decrease, increase, codeStart, monotoneNum);
      StretchBeforeNext(keys, i, keyIncrease, keyDecrease, keyStart, monotoneNum);
      if increase >= monotoneNum || decrease >= monotoneNum {
        StretchEarlier(codes, monotoneNum, i + 1);
        return true;
      }
      if keyIncrease >= monotoneNum || keyDecrease >= monotoneNum {
        StretchEarlier(keys, monotoneNum, i + 1);
        return true;
      }
      i := i + 1;
    }
    return false;
  }

  lemma StretchEarlier(s: seq<Move>, k: int, i: nat)
    requires i <= |s| && HasStretchBefore(s, k, i)
    ensures HasStretch(s, k)
  {
    hide StretchAt;
  }

  lemma CountingStart(s: seq<Move>)
    ensures Counting(s, 0, 1, 1, 0)
  {
  }

  // ---- which runs the monotone scanner catches ----

  lemma AllOneWay(s: seq<Move>, m: Move, lo: nat, hi: nat, k: int)
    requires m != Other && lo <= hi <= |s| && hi - lo >= k - 1
    requires forall i :: lo <= i < hi ==> s[i] == m
    ensures HasStretch(s, k)
  {
    CountAll(m, s[lo..hi]);
    assert StretchAt(s, k, lo, hi);
  }

  /** Every run of k rising codes, and every run of k falling ones. */
  lemma CodeRunsAreCaught(pw: bytes, i: nat, k: nat, rising: bool)
    requires k >= 2 && i + k <= |pw|
    requires forall j :: i <= j < i + k - 1 ==> Code(pw[j + 1]) == Code(pw[j]) + if rising then 1 else -1
    ensures Monotone(pw, k)
  {
    AllOneWay(CodeMoves(pw), if rising then Up else Down, i, i + k - 1, k);
  }

  lemma KeysAtOnRow(pw: bytes, i: nat, r: nat, j: nat)
    requires i < |pw| && OnRow(pw[i], r, j)
    ensures KeysAt(pw, i) == Beside(r, j)
  {
    hide Row, Adjacent;
    AdjacentOnRow(pw[i], if i == 0 then Keys(NUL, NUL) else KeysAt(pw, i - 1), r, j);
  }

  lemma RowsHaveNoNul(r: nat, j: nat)
    requires r < ROW_COUNT && j < |Row(r)|
    ensures Row(r)[j] != NUL
  {
  }

  /** k characters from i on go from key j of row r to the right. */
  predicate RightwardRun(pw: bytes, i: nat, k: nat, r: nat, j: nat) {
    && i + k <= |pw| && r < ROW_COUNT && j + k <= |Row(r)|
    && forall q :: i <= q < i + k ==> pw[q] == Row(r)[j + (q - i)]
  }

  /** Every left-to-right run of k keys of one row. */
  lemma RightwardRunsAreCaught(pw: bytes, i: nat, k: nat, r: nat, j: nat)
    requires k >= 2 && RightwardRun(pw, i, k, r, j)
    ensures Monotone(pw, k)
  {
    hide Row, KeysAt;
    forall q | i <= q < i + k - 1 ensures KeyMoves(pw)[q] == Up {
      assert pw[q + 1] == Row(r)[j + (q + 1 - i)];
      KeysAtOnRow(pw, q, r, j + (q - i));
      RowsHaveNoNul(r, j + (q + 1 - i));
    }
    AllOneWay(KeyMoves(pw), Up, i, i + k - 1, k);
  }

  /** From right to left, the first step counts only if it does not start on the last key of the row:
      that key has no right neighbour, and the code tests that one for both directions. */
  lemma LeftwardStep(pw: bytes, q: nat, r: nat, j: nat)
    requires q + 1 < |pw| && OnRow(pw[q], r, j) && j > 0 && pw[q + 1] == Row(r)[j - 1]
    ensures KeyMoves(pw)[q] == if j < |Row(r)| - 1 then Down else Other
  {
    hide Row, KeysAt;
    KeysAtOnRow(pw, q, r, j);
    if j < |Row(r)| - 1 {
      RowsHaveNoNul(r, j + 1);
      if Row(r)[j + 1] == Row(r)[j - 1] {
        KeysAreDistinct(Row(r)[j + 1], r, j + 1, r, j - 1);
      }
    }
  }

  /** k characters from i on go from key j of row r to the left. */
  predicate LeftwardRun(pw: bytes, i: nat, k: nat, r: nat, j: nat) {
    && i + k <= |pw| && r < ROW_COUNT && k - 1 <= j < |Row(r)|
    && forall q :: i <= q < i + k ==> pw[q] == Row(r)[j - (q - i)]
  }

  /** Every right-to-left run of k keys of one row that does not start on the row's last key. */
  lemma LeftwardRunsAreCaught(pw: bytes, i: nat, k: nat, r: nat, j: nat)
    requires k >= 2 && LeftwardRun(pw, i, k, r, j) && j < |Row(r)| - 1
    ensures Monotone(pw, k)
  {
    hide Row, KeyMoves;
    forall q | i <= q < i + k - 1 ensures KeyMoves(pw)[q] == Down {
      assert pw[q + 1] == Row(r)[j - (q + 1 - i)];
      LeftwardStep(pw, q, r, j - (q - i));
    }
    AllOneWay(KeyMoves(pw), Down, i, i + k - 1, k);
  }

  /** The keyboard counters see all of a right-to-left run that is the whole password exactly when it
      does not start on the row's last key. */
  lemma LeftwardKeysIff(pw: bytes, r: nat, j: nat)
    requires |pw| >= 2 && LeftwardRun(pw, 0, |pw|, r, j)
    ensures HasStretch(KeyMoves(pw), |pw|) <==> j < |Row(r)| - 1
  {
    hide Row, KeyMoves;
    var s := KeyMoves(pw);
    var k := |pw|;
    forall q | 0 <= q < k - 1 ensures s[q] == if j - q < |Row(r)| - 1 then Down else Other {
      assert pw[q + 1] == Row(r)[j - (q + 1)];
      LeftwardStep(pw, q, r, j - q);
    }
    if j < |Row(r)| - 1 {
      AllOneWay(s, Down, 0, k - 1, k);
    } else if HasStretch(s, k) {
      assert s[0] == Other;
      FullStretchIsOneWay(s, k);
      assert false;
    }
  }

  /** A stretch that needs every step goes one way all along. */
  lemma FullStretchIsOneWay(s: seq<Move>, k: int)
    requires |s| <= k - 1 && HasStretch(s, k)
    ensures (forall i :: 0 <= i < |s| ==> s[i] == Up) || (forall i :: 0 <= i < |s| ==> s[i] == Down)
    ensures |s| == k - 1
  {
    hide Count;
    var lo, hi :| hi <= |s| && StretchAt(s, k, lo, hi);
    CountIsBounded(Up, s[lo..hi]);
    CountIsBounded(Down, s[lo..hi]);
    assert s[lo..hi] == s;
    if Count(Up, s) >= k - 1 {
      CountIsFull(Up, s);
    } else {
      CountIsFull(Down, s);
    }
  }

  lemma {:induction false} CountIsFull(m: Move, s: seq<Move>)
    requires Count(m, s) == |s|
    ensures forall i :: 0 <= i < |s| ==> s[i] == m
  {
    if s == [] {
    } else {
      CountIsBounded(m, s[..|s| - 1]);
      CountIsFull(m, s[..|s| - 1]);
    }
  }

  /** The last keys of two rows, ?> and /. read leftwards, are two falling codes; no row ends in three
      keys that are a code run. */
  lemma LastKeysAreNoCodeRun(r: nat)
    requires r < ROW_COUNT
    ensures |Row(r)| >= 3
    ensures var c, d := Row(r)[|Row(r)| - 1], Row(r)[|Row(r)| - 2];
            && CodeMove(c, d) == (if r == 3 || r == 6 then Down else Other)
            && CodeMove(d, Row(r)[|Row(r)| - 3]) != Down
  {
  }

  /** Whether m keys in a row make the scanner say yes to k keys from key j of row r to the left. The
      first step from a row's last key is not counted, except as a step between two codes. */
  predicate LeftwardIsCaught(r: nat, j: nat, k: nat, m: nat)
    requires r < ROW_COUNT
  {
    k > m || (k == m && (j < |Row(r)| - 1 || (m == 2 && (r == 3 || r == 6))))
  }

  lemma LeftwardCaught(pw: bytes, i: nat, k: nat, r: nat, j: nat, m: nat)
    requires m >= 2 && LeftwardRun(pw, i, k, r, j) && LeftwardIsCaught(r, j, k, m)
    ensures Monotone(pw, m)
  {
    hide Row, Monotone;
    if j < |Row(r)| - 1 {
      LeftwardRunsAreCaught(pw, i, m, r, j);
    } else if k > m {
      LeftwardRunsAreCaught(pw, i + 1, m, r, j - 1);
    } else {
      LastKeysAreNoCodeRun(r);
      assert pw[i] == Row(r)[j] && pw[i + 1] == Row(r)[j - 1];
      CodeRunsAreCaught(pw, i, 2, false);
    }
  }

  lemma LeftwardMissed(pw: bytes, r: nat, j: nat, m: nat)
    requires m >= 2 && pw != [] && LeftwardRun(pw, 0, |pw|, r, j) && !LeftwardIsCaught(r, j, |pw|, m)
    ensures !Monotone(pw, m)
  {
    hide Row, CodeMoves, KeyMoves, HasStretch;
    var codes, keys := CodeMoves(pw), KeyMoves(pw);
    if HasStretch(keys, m) {
      FullStretchIsOneWay(keys, m);
      LeftwardKeysIff(pw, r, j);
      assert false;
    }
    if HasStretch(codes, m) {
      FullStretchIsOneWay(codes, m);
      LastKeysAreNoCodeRun(r);
      FirstCodeMoves(pw, r, j);
      assert false;
    }
  }

  lemma FirstCodeMoves(pw: bytes, r: nat, j: nat)
    requires |pw| >= 2 && LeftwardRun(pw, 0, |pw|, r, j)
    ensures CodeMoves(pw)[0] == CodeMove(Row(r)[j], Row(r)[j - 1])
    ensures |pw| >= 3 ==> CodeMoves(pw)[1] == CodeMove(Row(r)[j - 1], Row(r)[j - 2])
  {
    hide Row, CodeMove;
    assert pw[1] == Row(r)[j - 1];
    assert |pw| >= 3 ==> pw[2] == Row(r)[j - 2];
  }

  /** The verdict on a password that is one right-to-left run, for every limit. */
  lemma LeftwardRunIff(pw: bytes, r: nat, j: nat, m: nat)
    requires m >= 2 && pw != [] && LeftwardRun(pw, 0, |pw|, r, j)
    ensures Monotone(pw, m) <==> LeftwardIsCaught(r, j, |pw|, m)
  {
    hide Row, Monotone, LeftwardIsCaught;
    if LeftwardIsCaught(r, j, |pw|, m) {
      LeftwardCaught(pw, 0, |pw|, r, j, m);
    } else {
      LeftwardMissed(pw, r, j, m);
    }
  }

  /** k keys, from key j of row r to the left. */
  function Leftward(r: nat, j: nat, k: nat): (pw: bytes)
    requires r < ROW_COUNT && k <= j + 1 <= |Row(r)|
    ensures |pw| == k
  {
    seq(k, q requires 0 <= q < k => Row(r)[j - q])
  }

  lemma LeftwardIsRun(r: nat, j: nat, k: nat)
    requires r < ROW_COUNT && k <= j + 1 <= |Row(r)|
    ensures LeftwardRun(Leftward(r, j, k), 0, k, r, j)
  {
    hide Row;
  }

  /** A right-to-left run is caught wherever it stands in a password exactly when it is long enough: of m
      keys, or of one more if it starts on its row's last key (but for ?> and /. at limit 2). */
  lemma LeftwardRunsCaughtIff(r: nat, j: nat, k: nat, m: nat)
    requires m >= 2 && r < ROW_COUNT && 1 <= k <= j + 1 <= |Row(r)|
    ensures (forall pw: bytes, i: nat :: LeftwardRun(pw, i, k, r, j) ==> Monotone(pw, m))
       <==> LeftwardIsCaught(r, j, k, m)
  {
    hide Row, Monotone, LeftwardIsCaught;
    if LeftwardIsCaught(r, j, k, m) {
      forall pw: bytes, i: nat | LeftwardRun(pw, i, k, r, j) ensures Monotone(pw, m) {
        LeftwardCaught(pw, i, k, r, j, m);
      }
    } else {
      LeftwardIsRun(r, j, k);
      LeftwardRunIff(Leftward(r, j, k), r, j, m);
    }
  }

  lemma {:induction false} CountIsBounded(m: Move, s: seq<Move>)
    ensures Count(m, s) <= |s|
  {
    if s == [] {
    } else {
      CountIsBounded(m, s[..|s| - 1]);
    }
  }

  lemma NoMovesNoStretch(s: seq<Move>, k: int)
    requires k >= 2 && forall i :: 0 <= i < |s| ==> s[i] == Other
    ensures !HasStretch(s, k)
  {
    forall lo, hi | 0 <= lo < hi <= |s| ensures Other in s[lo..hi] {
      assert s[lo..hi][0] == Other;
    }
  }

  // ---- equal characters ----

  function SameMoves(pw: bytes): (s: seq<Move>)
    ensures |s| == if pw == [] then 0 else |pw| - 1
  {
    if pw == [] then [] else seq(|pw| - 1, i requires 0 <= i < |pw| - 1 => if pw[i] == pw[i + 1] then Up else Other)
  }

  ghost predicate HasSameRun(pw: bytes, n: int) {
    |pw| >= 2 && HasStretch(SameMoves(pw), n)
  }

  method IsConsecutiveSameCharacter(pw: bytes, consecutiveNum: int) returns (r: bool)
    ensures r <==> HasSameRun(pw, consecutiveNum)
  {
    hide StretchAt, HasStretchBefore, Count;
    ghost var moves := SameMoves(pw);
    ghost var start := 0;
    CountingStart(moves);
    var length, same := |pw|, 1;
    var i := 0;
    while i < length - 1
      invariant 0 <= i && (i == 0 || i <= length - 1)
      invariant Counting(moves, i, same, 1, start)
      invariant i > 0 ==> !HasStretchBefore(moves, consecutiveNum, i)
    {
      CountingStep(moves, i, same, 1, start);
      if pw[i] == pw[i + 1] {
        same := same + 1;
      } else {
        same, start := 1, i + 1;
      }
      StretchBeforeNext(moves, i, same, 1, start, consecutiveNum);
      if same >= consecutiveNum {
        StretchEarlier(moves, consecutiveNum, i + 1);
        return true;
      }
      i := i + 1;
    }
    return false;
  }

  lemma {:induction false} EqualAlong(pw: bytes, lo: nat, hi: nat)
    requires lo <= hi < |pw| && forall q :: lo <= q < hi ==> SameMoves(pw)[q] != Other
    ensures forall j :: lo <= j <= hi ==> pw[j] == pw[lo]
  {
    if lo == hi {
    } else {
      assert SameMoves(pw)[hi - 1] != Other;
      EqualAlong(pw, lo, hi - 1);
    }
  }

  lemma {:induction false} CountNone(m: Move, s: seq<Move>)
    requires m !in s
    ensures Count(m, s) == 0
  {
    if s == [] {
    } else {
      CountNone(m, s[..|s| - 1]);
    }
  }

  predicate SameAt(pw: bytes, n: nat, i: int) {
    0 <= i && i + n <= |pw| && forall j :: i <= j < i + n ==> pw[j] == pw[i]
  }

  /** For a limit of two or more: some n characters in a row are equal. */
  lemma SameRunIs(pw: bytes, n: nat)
    requires n >= 2
    ensures HasSameRun(pw, n) <==> exists i :: SameAt(pw, n, i)
  {
    hide Count;
    var s := SameMoves(pw);
    if i :| SameAt(pw, n, i) {
      AllOneWay(s, Up, i, i + n - 1, n);
    }
    if HasSameRun(pw, n) {
      var lo, hi :| hi <= |s| && StretchAt(s, n, lo, hi);
      assert forall q :: 0 <= q < |s[lo..hi]| ==> s[lo..hi][q] == s[lo + q] != Down;
      CountNone(Down, s[lo..hi]);
      CountIsBounded(Up, s[lo..hi]);
      forall q | lo <= q < hi ensures s[q] != Other {
        assert s[lo..hi][q - lo] == s[q];
      }
      EqualAlong(pw, lo, hi);
      assert SameAt(pw, n, lo);
    }
  }

  /** For lower limits any two characters are enough. */
  lemma SameRunOfOne(pw: bytes, n: int)
    requires n <= 1
    ensures HasSameRun(pw, n) <==> |pw| >= 2
  {
    hide SameMoves;
    if |pw| >= 2 {
      assert StretchAt(SameMoves(pw), n, 0, 0);
    }
  }

  // ---- higher limits ----

  /** Both scanners: what a higher limit catches, a lower one catches too. */
  lemma ScannersAreAntitone(pw: bytes, k: int, k': int)
    requires k <= k'
    ensures Monotone(pw, k') ==> Monotone(pw, k)
    ensures HasSameRun(pw, k') ==> HasSameRun(pw, k)
  {
    hide StretchAt, HasStretchBefore, CodeMoves, KeyMoves, SameMoves;
    if Monotone(pw, k') && HasStretch(CodeMoves(pw), k') {
      StretchesAreAntitone(CodeMoves(pw), k, k', |pw| - 1);
    }
    if Monotone(pw, k') && HasStretch(KeyMoves(pw), k') {
      StretchesAreAntitone(KeyMoves(pw), k, k', |pw| - 1);
    }
    if HasSameRun(pw, k') {
      StretchesAreAntitone(SameMoves(pw), k, k', |pw| - 1);
    }
  }
}
