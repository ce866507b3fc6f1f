/** The configuration file of tool/pwd_conf_update.c: rewritten as text, and read again line by line
    for its VALIDATE_POLICY entry (the same reader is in lib/deepin_pw_check.c). */
module PolicyFile {
  import opened CBytes

  // ---- what fgets reads ----

  const LINE_SIZE := 512

  /** The next n characters, but nothing after a newline. */
  function Chunk(s: bytes, n: nat): (c: bytes)
    ensures c <= s && |c| <= n && (s != [] && n > 0 ==> c != [])
    ensures |c| < |s| && |c| < n ==> c != [] && c[|c| - 1] == '\n'
    ensures forall i :: 0 <= i < |c| - 1 ==> c[i] != '\n'
  {
    if s == [] || n == 0 then []
    else if s[0] == '\n' then [s[0]] else [s[0]] + Chunk(s[1..], n - 1)
  }

  lemma {:induction false} ChunkIs(s: bytes, n: nat, c: bytes)
    requires c <= s && |c| <= n && (s != [] && n > 0 ==> c != [])
    requires |c| < |s| && |c| < n ==> c != [] && c[|c| - 1] == '\n'
    requires forall i :: 0 <= i < |c| - 1 ==> c[i] != '\n'
    ensures Chunk(s, n) == c
  {
    if s == [] || n == 0 || c[0] == '\n' {
    } else {
      ChunkIs(s[1..], n - 1, c[1..]);
    }
  }

  // ---- what the reader makes of it ----

  const KEY: bytes := "VALIDATE_POLICY"

  /** The first chunk that begins with the key. */
  function PolicyChunk(s: bytes): (r: Option<bytes>)
    ensures r.Some? ==> KEY <= r.value && |r.value| < LINE_SIZE
    decreases |s|
  {
    if s == [] then None else
      var c := Chunk(s, LINE_SIZE - 1);
      if KEY <= c then Some(c) else PolicyChunk(s[|c|..])
  }

  /** The value, if there is one. NoValue: nothing is copied. Undefined: the value is nothing but
      double quotes, and the length that is computed for the copy is -1. */
  datatype Parsed = NoValue | Value(text: bytes) | Undefined

  /** What follows the '=': spaces and then double quotes are dropped, and if there was a quote, one at
      the end too. */
  function ParseValue(s: bytes): Parsed {
    var a := DropAll(s, ' ');
    var b := DropAll(a, '"');
    if |b| == |a| then Value(b)
    else if b == [] then Undefined
    else if b[|b| - 1] == '"' then Value(b[..|b| - 1]) else Value(b)
  }

  function ParseChunk(c: bytes): Parsed {
    var p := |Before(c, '=')|;
    if p == |c| then NoValue else ParseValue(Before(c[p + 1..], '\n'))
  }

  /** What get_validate_policy reads from a file with this text. */
  function ReadPolicy(text: bytes): Parsed {
    match PolicyChunk(text) case None => NoValue case Some(c) => ParseChunk(c)
  }

  // ---- numbers ----

  function Decimal(n: nat): (s: bytes)
    ensures s != [] && forall i :: 0 <= i < |s| ==> '0' <= s[i] <= '9'
  {
    var d := ('0' as int + n % 10) as char;
    if n < 10 then [d] else Decimal(n / 10) + [d]
  }

  /** `%d`. */
  function Number(n: int): (s: bytes)
    ensures forall i :: 0 <= i < |s| ==> s[i] == '-' || '0' <= s[i] <= '9'
  {
    if n < 0 then "-" + Decimal(-n) else Decimal(n)
  }

  /** The number that decimal digits stand for, highest first. */
  function ReadDecimal(s: bytes): int {
    if s == [] then 0 else 10 * ReadDecimal(s[..|s| - 1]) + (s[|s| - 1] as int - '0' as int)
  }

  /** The digits stand for n, and there is no leading zero. */
  lemma {:induction false} DecimalIs(n: nat)
    ensures ReadDecimal(Decimal(n)) == n
    ensures Decimal(n)[0] == '0' ==> n == 0 && Decimal(n) == "0"
  {
    var d := ('0' as int + n % 10) as char;
    if n < 10 {
      assert Decimal(n) == [d] && [d][..0] == [];
    } else {
      DecimalIs(n / 10);
      assert Decimal(n)[..|Decimal(n)| - 1] == Decimal(n / 10);
      assert Decimal(n)[0] == Decimal(n / 10)[0];
    }
  }

  lemma NumberIs(n: int)
    ensures n >= 0 ==> Number(n)[0] != '-' && ReadDecimal(Number(n)) == n
    ensures n < 0 ==> Number(n)[0] == '-' && ReadDecimal(Number(n)[1..]) == -n && Number(n)[1] != '0'
  {
    DecimalIs(if n < 0 then -n else n);
    hide Decimal, ReadDecimal;
    assert n < 0 ==> Number(n)[1..] == Decimal(-n);
  }

  lemma DecimalLength(n: nat, k: nat)
    requires k > 0 && n < Pow10(k)
    ensures |Decimal(n)| <= k
  {
    if n >= 10 {
      DecimalLength(n / 10, k - 1);
    }
  }

  function Pow10(k: nat): nat {
    if k == 0 then 1 else 10 * Pow10(k - 1)
  }

  /** An `int` prints in at most eleven characters. */
  lemma NumberLength(n: int)
    requires -0x8000_0000 <= n < 0x8000_0000
    ensures 1 <= |Number(n)| <= 11
  {
    assert Pow10(4) == 10000;
    assert Pow10(7) == 10_000_000;
    assert Pow10(10) == 10_000_000_000;
    DecimalLength(if n < 0 then -n else n, 10);
  }

  // ---- the text that is written ----

  /** The eleven values, each from the old file or a default. */
  datatype Conf = Conf(
    strong: bool, minLength: int, maxLength: int, policy: bytes, required: int, palindromeNum: int,
    wordCheck: int, monotoneNum: int, sameNum: int, dictPath: bytes, firstUppercase: bool)

  /** The numbers are C ints and the texts C strings. */
  predicate IsStorable(c: Conf) {
    && IsInt(c.minLength) && IsInt(c.maxLength) && IsInt(c.required) && IsInt(c.palindromeNum) && IsInt(c.wordCheck)
    && IsInt(c.monotoneNum) && IsInt(c.sameNum) && IsCString(c.policy) && IsCString(c.dictPath)
  }

  predicate IsInt(n: int) {
    -0x8000_0000 <= n < 0x8000_0000
  }

  function Truth(b: bool): bytes {
    if b then "true" else "false"
  }

  function Line(key: bytes, value: bytes): bytes {
    key + " = " + value + "\n"
  }

  const HEADER: bytes := "[Password]\n"

  const LINE_COUNT := 12

  /** The keys in the order in which they are written; the fourth is that of the policy. */
  function KeyAt(i: nat): bytes
    requires 1 <= i < LINE_COUNT
  {
    match i
    case 1 => "STRONG_PASSWORD"
    case 2 => "PASSWORD_MIN_LENGTH"
    case 3 => "PASSWORD_MAX_LENGTH"
    case 4 => "VALIDATE_POLICY"
    case 5 => "VALIDATE_REQUIRED"
    case 6 => "PALINDROME_NUM"
    case 7 => "WORD_CHECK"
    case 8 => "MONOTONE_CHARACTER_NUM"
    case 9 => "CONSECUTIVE_SAME_CHARACTER_NUM"
    case 10 => "DICT_PATH"
    case _ => "FIRST_LETTER_UPPERCASE"
  }

  lemma FirstKeysAreCStrings(i: nat)
    requires 1 <= i < 6
    ensures IsCString(KeyAt(i))
  {
  }

  lemma MiddleKeysAreCStrings(i: nat)
    requires 6 <= i < 9
    ensures IsCString(KeyAt(i))
  {
  }

  lemma LastKeysAreCStrings(i: nat)
    requires 9 <= i < LINE_COUNT
    ensures IsCString(KeyAt(i))
  {
  }

  lemma KeysAreCStrings(i: nat)
    requires 1 <= i < LINE_COUNT
    ensures IsCString(KeyAt(i))
  {
    hide KeyAt;
    if i < 6 {
      FirstKeysAreCStrings(i);
    } else if i < 9 {
      MiddleKeysAreCStrings(i);
    } else {
      LastKeysAreCStrings(i);
    }
  }

  lemma EarlyKeys(i: nat)
    requires 1 <= i < 4
    ensures KeyAt(i) != [] && KeyAt(i)[0] != KEY[0] && '\n' !in KeyAt(i) && |KeyAt(i)| < 100
  {
  }

  function ValueAt(c: Conf, i: nat): bytes
    requires 1 <= i < LINE_COUNT
  {
    match i
    case 1 => Truth(c.strong)
    case 2 => Number(c.minLength)
    case 3 => Number(c.maxLength)
    case 4 => c.policy
    case 5 => Number(c.required)
    case 6 => Number(c.palindromeNum)
    case 7 => Number(c.wordCheck)
    case 8 => Number(c.monotoneNum)
    case 9 => Number(c.sameNum)
    case 10 => c.dictPath
    case _ => Truth(c.firstUppercase)
  }

  /** The section header and the eleven lines. */
  function LineAt(c: Conf, i: nat): bytes
    requires i < LINE_COUNT
  {
    if i == 0 then HEADER else Line(KeyAt(i), ValueAt(c, i))
  }

  function Lines(c: Conf): (lines: seq<bytes>)
    ensures |lines| == LINE_COUNT
  {
    seq(LINE_COUNT, i requires 0 <= i < LINE_COUNT => LineAt(c, i))
  }

  function Render(c: Conf): bytes {
    Concat(Lines(c))
  }

  /** The twelve lines, key by key. */
  lemma LinesAre(c: Conf)
    ensures LineAt(c, 0) == "[Password]\n"
    ensures LineAt(c, 1) == "STRONG_PASSWORD" + " = " + (if c.strong then "true" else "false") + "\n"
    ensures LineAt(c, 2) == "PASSWORD_MIN_LENGTH" + " = " + Number(c.minLength) + "\n"
    ensures LineAt(c, 3) == "PASSWORD_MAX_LENGTH" + " = " + Number(c.maxLength) + "\n"
    ensures LineAt(c, 4) == "VALIDATE_POLICY" + " = " + c.policy + "\n"
    ensures LineAt(c, 5) == "VALIDATE_REQUIRED" + " = " + Number(c.required) + "\n"
    ensures LineAt(c, 6) == "PALINDROME_NUM" + " = " + Number(c.palindromeNum) + "\n"
    ensures LineAt(c, 7) == "WORD_CHECK" + " = " + Number(c.wordCheck) + "\n"
    ensures LineAt(c, 8) == "MONOTONE_CHARACTER_NUM" + " = " + Number(c.monotoneNum) + "\n"
    ensures LineAt(c, 9) == "CONSECUTIVE_SAME_CHARACTER_NUM" + " = " + Number(c.sameNum) + "\n"
    ensures LineAt(c, 10) == "DICT_PATH" + " = " + c.dictPath + "\n"
    ensures LineAt(c, 11) == "FIRST_LETTER_UPPERCASE" + " = " + (if c.firstUppercase then "true" else "false") + "\n"
  {
    hide KeyAt, ValueAt, Number, Line;
    KeysAre();
    ValuesAre(c);
    forall i | 1 <= i < LINE_COUNT ensures LineAt(c, i) == KeyAt(i) + " = " + ValueAt(c, i) + "\n" {
      LineIsKeyAndValue(c, i);
    }
  }

  lemma LineIsKeyAndValue(c: Conf, i: nat)
    requires 1 <= i < LINE_COUNT
    ensures LineAt(c, i) == KeyAt(i) + " = " + ValueAt(c, i) + "\n"
  {
    hide KeyAt, ValueAt;
  }

  lemma KeysAre()
    ensures KeyAt(1) == "STRONG_PASSWORD" && KeyAt(2) == "PASSWORD_MIN_LENGTH" && KeyAt(3) == "PASSWORD_MAX_LENGTH"
    ensures KeyAt(4) == "VALIDATE_POLICY" && KeyAt(5) == "VALIDATE_REQUIRED" && KeyAt(6) == "PALINDROME_NUM"
    ensures KeyAt(7) == "WORD_CHECK" && KeyAt(8) == "MONOTONE_CHARACTER_NUM"
    ensures KeyAt(9) == "CONSECUTIVE_SAME_CHARACTER_NUM" && KeyAt(10) == "DICT_PATH"
    ensures KeyAt(11) == "FIRST_LETTER_UPPERCASE"
  {
  }

  lemma ValuesAre(c: Conf)
    ensures ValueAt(c, 1) == (if c.strong then "true" else "false") && ValueAt(c, 2) == Number(c.minLength)
    ensures ValueAt(c, 3) == Number(c.maxLength) && ValueAt(c, 4) == c.policy && ValueAt(c, 5) == Number(c.required)
    ensures ValueAt(c, 6) == Number(c.palindromeNum) && ValueAt(c, 7) == Number(c.wordCheck)
    ensures ValueAt(c, 8) == Number(c.monotoneNum) && ValueAt(c, 9) == Number(c.sameNum)
    ensures ValueAt(c, 10) == c.dictPath && ValueAt(c, 11) == if c.firstUppercase then "true" else "false"
  {
    hide Number;
  }

  /** The text is these lines one after the other. */
  lemma RenderIs(c: Conf)
    ensures Render(c)
         == LineAt(c, 0) + LineAt(c, 1) + LineAt(c, 2) + LineAt(c, 3) + LineAt(c, 4) + LineAt(c, 5)
            + LineAt(c, 6) + LineAt(c, 7) + LineAt(c, 8) + LineAt(c, 9) + LineAt(c, 10) + LineAt(c, 11)
  {
    hide LineAt, Concat;
    LinesAt(c);
    WholeAndNothing(Lines(c));
    hide Lines;
    FourMore(Lines(c), 0);
    FourMore(Lines(c), 4);
    FourMore(Lines(c), 8);
  }

  lemma LinesAt(c: Conf)
    ensures forall i :: 0 <= i < 12 ==> Lines(c)[i] == LineAt(c, i)
  {
    hide LineAt;
  }

  lemma WholeAndNothing(lines: seq<bytes>)
    requires |lines| == 12
    ensures lines[..12] == lines && lines[..0] == [] && forall s: bytes :: Concat(lines[..0]) + s == s
  {
    ConcatOfNone();
  }

  lemma ConcatOfNone()
    ensures Concat([]) == []
  {
  }

  lemma FourMore(lines: seq<bytes>, i: nat)
    requires i + 4 <= |lines|
    ensures Concat(lines[..i + 4])
         == Concat(lines[..i]) + lines[i] + lines[i + 1] + lines[i + 2] + lines[i + 3]
  {
    hide Concat;
    ConcatNext(lines, i);
    ConcatNext(lines, i + 1);
    ConcatNext(lines, i + 2);
    ConcatNext(lines, i + 3);
  }

  lemma Reassociate(a: bytes, b: bytes, c: bytes)
    ensures (a + b) + c == a + (b + c)
  {
  }

  /** The text is the lines before a line, that line, and the lines after it. */
  lemma ConcatAround(lines: seq<bytes>, i: nat)
    requires i < |lines|
    ensures Concat(lines) == Concat(lines[..i]) + (lines[i] + Concat(lines[i + 1..]))
  {
    hide Concat;
    ConcatNext(lines, i);
    ConcatAppend(lines[..i + 1], lines[i + 1..]);
    assert lines[..i + 1] + lines[i + 1..] == lines;
    Reassociate(Concat(lines[..i]), lines[i], Concat(lines[i + 1..]));
  }

  // ---- reading what was written ----

  /** A line of its own that does not begin with the key is passed over. */
  predicate IsPassedOver(line: bytes) {
    && line != [] && |line| < LINE_SIZE && line[0] != KEY[0] && line[|line| - 1] == '\n'
    && forall i :: 0 <= i < |line| - 1 ==> line[i] != '\n'
  }

  lemma PassOver(line: bytes, rest: bytes)
    requires IsPassedOver(line)
    ensures PolicyChunk(line + rest) == PolicyChunk(rest)
  {
    ChunkIs(line + rest, LINE_SIZE - 1, line);
    assert (line + rest)[|line|..] == rest;
    assert KEY[0] != line[0];
  }

  lemma {:induction false} PassOverAll(lines: seq<bytes>, rest: bytes)
    requires forall i :: 0 <= i < |lines| ==> IsPassedOver(lines[i])
    ensures PolicyChunk(Concat(lines) + rest) == PolicyChunk(rest)
  {
    if lines == [] {
      assert Concat(lines) + rest == rest;
    } else {
      assert Concat(lines) + rest == lines[0] + (Concat(lines[1..]) + rest);
      PassOver(lines[0], Concat(lines[1..]) + rest);
      PassOverAll(lines[1..], rest);
    }
  }

  lemma LineIsPassedOver(key: bytes, value: bytes)
    requires key != [] && key[0] != KEY[0] && |key| + |value| < 500
    requires '\n' !in key && '\n' !in value
    ensures IsPassedOver(Line(key, value))
  {
  }

  lemma LinesBeforeArePassedOver(c: Conf, i: nat)
    requires IsStorable(c) && i < 4
    ensures IsPassedOver(LineAt(c, i))
  {
    hide Line, IsPassedOver, Number, KeyAt, KEY;
    if i == 0 {
      HeaderIsPassedOver();
    } else {
      EarlyKeys(i);
      NumberLength(if i == 2 then c.minLength else c.maxLength);
      LineIsPassedOver(KeyAt(i), ValueAt(c, i));
    }
  }

  lemma HeaderIsPassedOver()
    ensures IsPassedOver(HEADER)
  {
  }

  const POLICY_SIZE := LINE_SIZE - 1 - |KEY| - 3

  /** Of a policy that was written, the part before a newline that fits the line buffer is parsed. */
  function Kept(policy: bytes): (w: bytes)
    ensures w <= policy && |w| <= POLICY_SIZE && '\n' !in w
  {
    Take(Before(policy, '\n'), POLICY_SIZE)
  }

  lemma Sizes()
    ensures POLICY_SIZE == 493 && |KEY| == 15
  {
  }

  const INTRO: bytes := KEY + " = "

  lemma IntroFacts()
    ensures '\n' !in INTRO && '=' !in KEY + " " && INTRO == (KEY + " ") + "= " && |INTRO| == 18
  {
  }

  /** The chunk that begins with the key: the line, or as much of it as fits. */
  function PolicyLine(w: bytes): bytes {
    if |w| < POLICY_SIZE then INTRO + w + "\n" else INTRO + w[..POLICY_SIZE]
  }

  lemma PrefixUnder(a: bytes, x: bytes, y: bytes)
    requires x <= y
    ensures a + x <= a + y
  {
  }

  /** What follows INTRO in the chunk is a prefix of what follows it in the text. */
  lemma PolicyLineIsPrefix(policy: bytes, rest: bytes)
    ensures var w := Before(policy, '\n');
            && PolicyLine(w) <= INTRO + (policy + "\n" + rest)
            && w + "\n" <= policy + "\n" + rest
  {
    hide INTRO, Before;
    var w, t := Before(policy, '\n'), policy + "\n" + rest;
    assert w <= t && t[|w|] == '\n';
    assert w + "\n" <= t;
    PrefixUnder(INTRO, w + "\n", t);
    PrefixUnder(INTRO, Take(w, POLICY_SIZE), t);
    Reassociate(INTRO, w, "\n");
  }

  lemma PolicyLineChunk(policy: bytes, rest: bytes)
    ensures KEY <= PolicyLine(Before(policy, '\n'))
    ensures Chunk(Line(KEY, policy) + rest, LINE_SIZE - 1) == PolicyLine(Before(policy, '\n'))
  {
    IntroFacts();
    LineIs(policy, rest);
    hide INTRO, Before, Line, KEY;
    var s, w := Line(KEY, policy) + rest, Before(policy, '\n');
    PolicyLineIsPrefix(policy, rest);
    ChunkIs(s, LINE_SIZE - 1, PolicyLine(w));
    assert PolicyLine(w)[..18] == INTRO;
    assert PolicyLine(w)[..15] == INTRO[..15];
  }

  lemma LineIs(policy: bytes, rest: bytes)
    ensures Line(KEY, policy) + rest == INTRO + (policy + "\n" + rest)
    ensures INTRO[..15] == KEY && |KEY| == 15
  {
  }

  lemma ParsePolicyLine(w: bytes, newline: bytes)
    requires '\n' !in w && (newline == [] || newline == "\n")
    ensures ParseChunk(INTRO + w + newline) == ParseValue(w)
  {
    IntroFacts();
    hide INTRO, KEY, ParseValue;
    var c := INTRO + w + newline;
    assert c == (KEY + " ") + ("= " + w + newline);
    BeforeIs(c, '=', KEY + " ");
    assert c[17..] == " " + w + newline;
    BeforeIs(" " + w + newline, '\n', " " + w);
    SpaceFirst(w);
  }

  lemma DropSpace(w: bytes)
    ensures DropAll(" " + w, ' ') == DropAll(w, ' ')
  {
    assert (" " + w)[1..] == w;
  }

  lemma SpaceFirst(w: bytes)
    ensures ParseValue(" " + w) == ParseValue(w)
  {
    DropSpace(w);
    hide DropAll;
  }

  lemma PolicyChunkOfRender(c: Conf)
    requires IsStorable(c)
    ensures PolicyChunk(Render(c)) == Some(PolicyLine(Before(c.policy, '\n')))
  {
    LineIsLong(c.policy);
    assert KeyAt(4) == KEY && LineAt(c, 4) == Line(KEY, c.policy);
    hide LineAt, Line, Concat, Chunk, Before, IsPassedOver, PolicyLine, KEY;
    var lines := Lines(c);
    ConcatAround(lines, 4);
    forall i | 0 <= i < 4 ensures IsPassedOver(lines[..4][i]) {
      LinesBeforeArePassedOver(c, i);
    }
    var rest := Concat(lines[5..]);
    PassOverAll(lines[..4], Line(KEY, c.policy) + rest);
    PolicyLineChunk(c.policy, rest);
  }

  lemma ReadOfRender(c: Conf)
    requires IsStorable(c)
    ensures ReadPolicy(Render(c)) == ParseValue(Kept(c.policy))
  {
    hide Before, ParseChunk, ParseValue, INTRO, PolicyChunk, Render;
    var w := Before(c.policy, '\n');
    PolicyChunkOfRender(c);
    if |w| < POLICY_SIZE {
      ParsePolicyLine(w, "\n");
    } else {
      ParsePolicyLine(w[..POLICY_SIZE], []);
      assert INTRO + w[..POLICY_SIZE] + [] == INTRO + w[..POLICY_SIZE];
      assert Take(w, POLICY_SIZE) == w[..POLICY_SIZE];
    }
  }

  lemma LineIsLong(policy: bytes)
    ensures Line(KEY, policy) != []
  {
  }

  // ---- the reader ----

  class TextFile {
    const content: bytes
    var pos: nat
    var eof: bool

    ghost predicate Valid()
      reads this
    {
      IsCString(content) && pos <= |content|
    }

    ghost function Rest(): bytes
      requires Valid()
      reads this
    {
      content[pos..]
    }

    constructor (content: bytes)
      requires IsCString(content)
      ensures Valid() && this.content == content && pos == 0 && !eof
    {
      this.content := content;
      pos, eof := 0, false;
    }

    /** `fgets(buff, 512, f)`: the buffer keeps its old content when there is nothing left to read. */
    method Gets(buff: array<byte>)
      requires Valid() && buff.Length == LINE_SIZE
      modifies this, buff
      ensures Valid() && pos == old(pos) + |Chunk(old(Rest()), LINE_SIZE - 1)|
      ensures eof ==> old(eof) || pos == |content|
      ensures old(Rest()) != [] ==> CStr(buff[..]) == Chunk(old(Rest()), LINE_SIZE - 1)
      ensures old(Rest()) == [] ==> eof && buff[..] == old(buff[..])
    {
      hide Chunk, CStr;
      ghost var rest := Rest();
      var start := pos;
      var more := true;
      while more && pos - start < LINE_SIZE - 1
        invariant start <= pos <= |content| && pos - start <= LINE_SIZE - 1
        invariant forall i :: start <= i < pos - 1 ==> content[i] != '\n'
        invariant pos > start && content[pos - 1] == '\n' ==> !more
        invariant eof ==> old(eof) || pos == |content|
        invariant !more ==> (pos == |content| && eof) || (pos > start && content[pos - 1] == '\n')
        invariant buff[..] == old(buff[..])
        decreases LINE_SIZE - 1 - (pos - start), more
      {
        if pos == |content| {
          eof := true;
          more := false;
        } else {
          more := content[pos] != '\n';
          pos := pos + 1;
        }
      }
      ghost var c := content[start..pos];
      ChunkIs(rest, LINE_SIZE - 1, c);
      if pos > start {
        SliceIsCString(content, start, pos);
        Put(buff, content[start..pos]);
      }
    }
  }

  /** `strchr`, as an index; -1 for NULL. */
  method StrChr(buff: array<byte>, c: byte) returns (i: int)
    requires |CStr(buff[..])| < buff.Length && c != NUL
    ensures i == if |Before(CStr(buff[..]), c)| < |CStr(buff[..])| then |Before(CStr(buff[..]), c)| else -1
  {
    hide CStr, Before;
    ghost var s := CStr(buff[..]);
    i := 0;
    while buff[i] != NUL && buff[i] != c
      invariant 0 <= i <= |s| && forall k :: 0 <= k < i ==> s[k] != c
      decreases |s| - i
    {
      assert s[i] == buff[i];
      i := i + 1;
    }
    BeforeIs(s, c, s[..i]);
    if buff[i] == NUL {
      i := -1;
    }
  }

  /** A chunk as the reader sees it: no newline but at the end. */
  ghost predicate IsChunk(c: bytes) {
    |c| < LINE_SIZE && forall i :: 0 <= i < |c| - 1 ==> c[i] != '\n'
  }

  /** Skips one character as often as it comes. */
  method SkipAll(buff: array<byte>, from: nat, c: byte) returns (i: nat)
    requires from <= |CStr(buff[..])| < buff.Length && c != NUL
    ensures from <= i <= |CStr(buff[..])| && CStr(buff[..])[i..] == DropAll(CStr(buff[..])[from..], c)
    ensures i > from ==> buff[i - 1] == c
  {
    hide CStr, DropAll;
    ghost var s := CStr(buff[..]);
    i := from;
    while buff[i] == c
      invariant from <= i <= |s| && forall k :: from <= k < i ==> s[k] == buff[k] == c
      decreases |s| - i
    {
      assert s[i] == buff[i];
      i := i + 1;
    }
    assert i < |s| ==> s[i] == buff[i];
    DropAllIs(s[from..], c, i - from);
    assert s[from..][i - from..] == s[i..];
  }

  /** Spaces, then double quotes, with the newline still behind them. */
  lemma {:induction false} DropBeforeNewline(s: bytes, c: byte)
    requires c != '\n'
    ensures Before(DropAll(s, c), '\n') == DropAll(Before(s, '\n'), c)
    ensures |s| - |DropAll(s, c)| == |Before(s, '\n')| - |DropAll(Before(s, '\n'), c)|
  {
    if s == [] || s[0] != c {
    } else {
      BeforeFirst(s, '\n');
      DropFirst(s, c);
      DropFirst(Before(s, '\n'), c);
      hide Before, DropAll;
      DropBeforeNewline(s[1..], c);
    }
  }

  lemma BeforeFirst(s: bytes, c: byte)
    requires s != [] && s[0] != c
    ensures Before(s, c) != [] && Before(s, c)[0] == s[0] && Before(s, c)[1..] == Before(s[1..], c)
  {
  }

  lemma DropFirst(s: bytes, c: byte)
    requires s != [] && s[0] == c
    ensures DropAll(s, c) == DropAll(s[1..], c)
  {
  }

  lemma BeforeTail(c: bytes, x: byte, i: nat)
    requires i <= |Before(c, x)|
    ensures Before(c[i..], x) == Before(c, x)[i..]
  {
    BeforeIs(c[i..], x, Before(c, x)[i..]);
  }

  /** Dropping spaces and quotes takes the same characters off with the newline and without it. */
  lemma DropBothBeforeNewline(s: bytes)
    ensures var a, l := DropAll(s, ' '), DropAll(Before(s, '\n'), ' ');
            && |s| - |a| == |Before(s, '\n')| - |l|
            && |a| - |DropAll(a, '"')| == |l| - |DropAll(l, '"')|
            && Before(DropAll(a, '"'), '\n') == DropAll(l, '"')
  {
    hide Before, DropAll;
    DropBeforeNewline(s, ' ');
    DropBeforeNewline(DropAll(s, ' '), '"');
  }

  lemma EqualsBeforeNewline(c: bytes)
    requires IsChunk(c) && |Before(c, '=')| < |c|
    ensures |Before(c, '=')| < |Before(c, '\n')|
  {
    hide Before;
    var line := Before(c, '\n');
    assert |line| < |c| ==> c[|line|] == '\n';
  }

  /** Where the pointers of the reader are, as lengths. */
  ghost predicate Pointers(c: bytes, p: nat, spaces: nat, start: nat) {
    && IsChunk(c) && p == |Before(c, '=')| && p + 1 <= spaces <= start <= |c|
    && c[spaces..] == DropAll(c[p + 1..], ' ') && c[start..] == DropAll(c[spaces..], '"')
  }

  lemma PointersDelimitParts(c: bytes, p: nat, spaces: nat, start: nat)
    requires Pointers(c, p, spaces, start)
    ensures p == |Before(c, '=')| < |c| && spaces <= start
    ensures var stop, a := |Before(c, '\n')|, DropAll(Before(c[p + 1..], '\n'), ' ');
            start <= stop && |a| == stop - spaces && DropAll(a, '"') == Slice(c, start, stop)
  {
    EqualsBeforeNewline(c);
    BeforeTail(c, '\n', p + 1);
    hide Before, DropAll, IsChunk;
    var s := c[p + 1..];
    DropBothBeforeNewline(s);
    var stop, a := |Before(c, '\n')|, DropAll(Before(s, '\n'), ' ');
    assert |Before(s, '\n')| == stop - p - 1;
    assert |a| == stop - spaces && |DropAll(a, '"')| == stop - start;
    BeforeTail(c, '\n', start);
    SliceOfPrefix(Before(c, '\n'), c, start);
  }

  /** The value, when `b` is what is left after the spaces and quotes and n characters were left after
      the spaces. */
  function Trimmed(b: bytes, n: nat): Parsed {
    if |b| == n then Value(b) else if b == [] then Undefined
    else if b[|b| - 1] == '"' then Value(b[..|b| - 1]) else Value(b)
  }

  lemma PointersDelimitValue(c: bytes, p: nat, spaces: nat, start: nat)
    requires Pointers(c, p, spaces, start)
    ensures var stop := |Before(c, '\n')|;
            spaces <= start <= stop && ParseChunk(c) == Trimmed(Slice(c, start, stop), stop - spaces)
  {
    hide Before, DropAll, Slice, ParseValue, ParseChunk, Trimmed, Pointers;
    PointersDelimitParts(c, p, spaces, start);
    ParseOfRest(c);
    ParseIsTrimmed(Before(c[p + 1..], '\n'));
  }

  lemma ParseOfRest(c: bytes)
    requires |Before(c, '=')| < |c|
    ensures ParseChunk(c) == ParseValue(Before(c[|Before(c, '=')| + 1..], '\n'))
  {
    hide Before, ParseValue;
  }

  lemma ParseIsTrimmed(s: bytes)
    ensures ParseValue(s) == Trimmed(DropAll(DropAll(s, ' '), '"'), |DropAll(s, ' ')|)
  {
    hide DropAll;
  }

  lemma TrimmedSlice(c: bytes, spaces: nat, start: nat, stop: nat)
    requires spaces <= start <= stop <= |c|
    ensures start == spaces ==> Trimmed(Slice(c, start, stop), stop - spaces) == Value(Slice(c, start, stop))
    ensures spaces < start == stop ==> Trimmed(Slice(c, start, stop), stop - spaces) == Undefined
    ensures spaces < start < stop && c[stop - 1] == '"' ==>
              Trimmed(Slice(c, start, stop), stop - spaces) == Value(Slice(c, start, stop - 1))
    ensures spaces < start < stop && c[stop - 1] != '"' ==>
              Trimmed(Slice(c, start, stop), stop - spaces) == Value(Slice(c, start, stop))
  {
    if start < stop {
      ShorterSlice(c, start, stop);
    }
    hide Slice;
  }

  /** Moves the pointers over a matching line: behind the '=' that is at p, spaces and then quotes. */
  method MovePointers(buff: array<byte>, p: nat) returns (spaces: nat, start: nat)
    requires buff.Length == LINE_SIZE && IsChunk(CStr(buff[..]))
    requires p == |Before(CStr(buff[..]), '=')| < |CStr(buff[..])|
    ensures spaces <= start <= |CStr(buff[..])| && Pointers(CStr(buff[..]), p, spaces, start)
    ensures start > spaces ==> buff[start - 1] == '"'
  {
    hide CStr, Before, DropAll;
    spaces := SkipAll(buff, p + 1, ' ');
    start := SkipAll(buff, spaces, '"');
  }

  /** Where the value of a matching line is: between `start` and `end`, which is before `start` when the
      value is nothing but double quotes. */
  method Delimit(buff: array<byte>) returns (found: bool, start: nat, end: int)
    requires buff.Length == LINE_SIZE && IsChunk(CStr(buff[..]))
    ensures !found ==> ParseChunk(CStr(buff[..])) == NoValue
    ensures found && start <= end ==>
              end <= |CStr(buff[..])| && ParseChunk(CStr(buff[..])) == Value(Slice(CStr(buff[..]), start, end))
    ensures found && end < start ==> end == start - 1 && ParseChunk(CStr(buff[..])) == Undefined
  {
    hide CStr, Before, DropAll, ParseValue, Slice, Pointers, Trimmed;
    ghost var c := CStr(buff[..]);
    assert |c| < LINE_SIZE;
    var p := StrChr(buff, '=');
    var newline := StrChr(buff, '\n');
    if p == -1 {
      return false, 0, 0;
    }
    var spaces;
    spaces, start := MovePointers(buff, p);
    hide ParseChunk;
    var findQuot := start > spaces;
    end := |CStr(buff[..])|;
    if newline != -1 {
      end := newline;
    }
    PointersDelimitValue(c, p, spaces, start);
    TrimmedSlice(c, spaces, start, end);
    if findQuot && buff[end - 1] == '"' {
      end := end - 1;
    }
    found := true;
  }

  /** What has become of the buffer that the value is copied to. Undetermined: the C code copies with
      length -1, or looks for the key in a line buffer that nothing was read into. */
  datatype Outcome = Copied | Untouched | Undetermined

  /** The part of get_validate_policy that takes a matching line apart and copies the value. */
  method CopyValue(buff: array<byte>, data: array<byte>) returns (outcome: Outcome)
    requires buff != data && data.Length >= LINE_SIZE && buff.Length == LINE_SIZE && IsChunk(CStr(buff[..]))
    modifies data
    ensures match ParseChunk(CStr(buff[..]))
            case Value(v) => outcome == Copied && CStr(data[..]) == v
            case NoValue => outcome == Untouched && data[..] == old(data[..])
            case Undefined => outcome == Undetermined
  {
    hide CStr, ParseChunk;
    ghost var c := CStr(buff[..]);
    var found, start, end := Delimit(buff);
    if !found {
      return Untouched;
    }
    if end < start {
      return Undetermined;
    }
    assert buff[start..end] == Slice(c, start, end);
    SliceIsCString(c, start, end);
    Put(data, buff[start..end]);
    outcome := Copied;
  }

  lemma NextChunk(text: bytes, at: nat)
    requires at <= |text|
    ensures at == |text| ==> PolicyChunk(text[at..]) == None
    ensures at < |text| ==> var c := Chunk(text[at..], LINE_SIZE - 1);
                            && IsChunk(c) && at + |c| <= |text|
                            && PolicyChunk(text[at..]) == if KEY <= c then Some(c) else PolicyChunk(text[at + |c|..])
  {
    hide Chunk, KEY;
    if at < |text| {
      var c := Chunk(text[at..], LINE_SIZE - 1);
      assert text[at..][|c|..] == text[at + |c|..];
    }
  }

  /** get_validate_policy: the value of the first line that begins with the key, copied to `data`. No
      file (null) when it cannot be opened. */
  method GetValidatePolicy(f: TextFile?, data: array<byte>) returns (outcome: Outcome)
    requires f != null ==> f.Valid() && f.pos == 0 && !f.eof
    requires data.Length >= LINE_SIZE
    modifies f, data
    ensures f == null ==> outcome == Untouched
    ensures f != null && f.content == [] ==> outcome == Undetermined
    ensures f != null && f.content != [] ==>
              match ReadPolicy(f.content)
              case Value(v) => outcome == Copied && CStr(data[..]) == v
              case NoValue => outcome == Untouched
              case Undefined => outcome == Undetermined
    ensures outcome == Untouched ==> data[..] == old(data[..])
  {
    hide CStr, Chunk, ParseChunk, PolicyChunk, KEY;
    if f == null {
      return Untouched;
    }
    var buff := new byte[LINE_SIZE];
    assert f.content[0..] == f.content;
    while !f.eof
      invariant f.Valid() && data[..] == old(data[..])
      invariant f.pos == 0 ==> !f.eof
      invariant f.pos > 0 ==> !(KEY <= CStr(buff[..]))
      invariant f.eof ==> f.pos == |f.content|
      invariant PolicyChunk(f.content) == PolicyChunk(f.Rest())
      decreases |f.content| - f.pos, if f.eof then 0 else 1
    {
      ghost var at := f.pos;
      NextChunk(f.content, at);
      f.Gets(buff);
      if f.pos == 0 {
        // The file is empty: the line buffer is uninitialised.
        return Undetermined;
      }
      if KEY <= CStr(buff[..]) {
        outcome := CopyValue(buff, data);
        return;
      }
    }
    NextChunk(f.content, f.pos);
    outcome := Untouched;
  }

  // ---- the writer ----

  const STRING_SIZE := 2048

  /** What the parsed file has (None: no such entry) and what the system type supplies instead. */
  datatype Entries = Entries(
    strong: Option<bool>, minLength: Option<int>, maxLength: Option<int>, hasPolicy: bool, required: Option<int>,
    palindromeNum: Option<int>, wordCheck: Option<int>, monotoneNum: Option<int>, sameNum: Option<int>,
    dictPath: Option<bytes>, firstUppercase: Option<bool>)

  datatype Defaults = Defaults(
    minLength: int, maxLength: int, policy: bytes, required: int, palindromeNum: int, wordCheck: int,
    monotoneNum: int, sameNum: int)

  function Or<T>(o: Option<T>, default: T): T {
    if o.Some? then o.value else default
  }

  /** Whether there is a policy to write: an entry that iniparser finds may be none for the line reader. */
  predicate HasKnownPolicy(e: Entries, text: bytes) {
    e.hasPolicy ==> ReadPolicy(text).Value?
  }

  /** The values that are written; for a policy that is not known, nothing stands here. */
  function Resolved(e: Entries, d: Defaults, text: bytes): Conf {
    Conf(Or(e.strong, true), Or(e.minLength, d.minLength), Or(e.maxLength, d.maxLength),
         if !e.hasPolicy then d.policy else if ReadPolicy(text).Value? then ReadPolicy(text).text else [],
         Or(e.required, d.required), Or(e.palindromeNum, d.palindromeNum), Or(e.wordCheck, d.wordCheck),
         Or(e.monotoneNum, d.monotoneNum), Or(e.sameNum, d.sameNum), Or(e.dictPath, []), Or(e.firstUppercase, false))
  }

  /** Every entry that the old file has is kept, and for the others the defaults are put in. */
  lemma ResolvedIs(e: Entries, d: Defaults, text: bytes)
    ensures var c := Resolved(e, d, text);
            && c.strong == (e.strong != Some(false)) && c.firstUppercase == (e.firstUppercase == Some(true))
            && (e.minLength == Some(c.minLength) || (e.minLength == None && c.minLength == d.minLength))
            && (e.maxLength == Some(c.maxLength) || (e.maxLength == None && c.maxLength == d.maxLength))
            && (e.required == Some(c.required) || (e.required == None && c.required == d.required))
            && (e.palindromeNum == Some(c.palindromeNum)
                || (e.palindromeNum == None && c.palindromeNum == d.palindromeNum))
            && (e.wordCheck == Some(c.wordCheck) || (e.wordCheck == None && c.wordCheck == d.wordCheck))
            && (e.monotoneNum == Some(c.monotoneNum) || (e.monotoneNum == None && c.monotoneNum == d.monotoneNum))
            && (e.sameNum == Some(c.sameNum) || (e.sameNum == None && c.sameNum == d.sameNum))
            && (e.dictPath == Some(c.dictPath) || (e.dictPath == None && c.dictPath == ""))
            && (!e.hasPolicy ==> c.policy == d.policy)
            && (e.hasPolicy && HasKnownPolicy(e, text) ==> ReadPolicy(text) == Value(c.policy))
  {
    hide ReadPolicy;
  }

  lemma NumberIsCString(n: int)
    ensures IsCString(Number(n))
  {
  }

  lemma LineIsCString(key: bytes, value: bytes)
    requires IsCString(key) && IsCString(value)
    ensures IsCString(Line(key, value))
  {
  }

  // ---- the length of the text ----

  function KeyLength(i: nat): nat {
    if i == 1 || i == 4 then 15 else if i == 2 || i == 3 then 19 else if i == 5 then 17 else if i == 6 then 14
    else if i == 7 then 10 else if i == 9 then 30 else if i == 10 then 9 else 22
  }

  lemma KeyLengths(i: nat)
    requires 1 <= i < LINE_COUNT
    ensures |KeyAt(i)| == KeyLength(i)
  {
  }

  lemma LineLength(c: Conf, i: nat)
    requires IsStorable(c) && i < LINE_COUNT
    ensures |LineAt(c, i)| <= if i == 0 then 11 else
              KeyLength(i) + 4 + if i == 4 then |c.policy| else if i == 10 then |c.dictPath|
                                 else if i == 1 || i == 11 then 5 else 11
  {
    HeaderLine(c);
    hide KeyAt, Number;
    if i > 0 {
      KeyLengths(i);
      NumberLength(c.minLength);
      NumberLength(c.maxLength);
      NumberLength(c.required);
      NumberLength(c.palindromeNum);
      NumberLength(c.wordCheck);
      NumberLength(c.monotoneNum);
      NumberLength(c.sameNum);
    }
  }

  /** What the first i lines come to at most, without policy and dictionary path. */
  function FixedLength(i: nat): nat
    requires i <= LINE_COUNT
  {
    match i
    case 0 => 0 case 1 => 11 case 2 => 35 case 3 => 69 case 4 => 103 case 5 => 122 case 6 => 154
    case 7 => 183 case 8 => 208 case 9 => 245 case 10 => 290 case 11 => 303 case _ => 334
  }

  lemma {:induction false} LengthSoFar(c: Conf, i: nat)
    requires IsStorable(c) && i <= LINE_COUNT
    ensures |Concat(Lines(c)[..i])|
         <= FixedLength(i) + (if i > 4 then |c.policy| else 0) + if i > 10 then |c.dictPath| else 0
  {
    hide LineAt, IsStorable;
    if i == 0 {
      assert Lines(c)[..i] == [];
    } else {
      hide Concat;
      LengthSoFar(c, i - 1);
      ConcatNext(Lines(c), i - 1);
      LineLength(c, i - 1);
    }
  }

  /** The text is at most 334 characters longer than the policy and the dictionary path together. So it
      fits its buffer whenever the policy came out of a line buffer and the path is at most 1024 long. */
  lemma RenderFits(c: Conf)
    requires IsStorable(c)
    ensures |Render(c)| <= 334 + |c.policy| + |c.dictPath|
    ensures |c.policy| < 512 && |c.dictPath| <= 1024 ==> |Render(c)| < 2048
  {
    hide Concat, IsStorable;
    LengthSoFar(c, LINE_COUNT);
    assert Lines(c)[..LINE_COUNT] == Lines(c);
  }

  /** The text holds the first i lines. */
  ghost predicate Holds(to: array<byte>, c: Conf, i: nat)
    reads to
  {
    i <= LINE_COUNT && to.Length == STRING_SIZE && |Render(c)| < STRING_SIZE && CStr(to[..]) == Concat(Lines(c)[..i])
  }

  /** One `sprintf` at the end of the text so far. */
  method AppendLine(to: array<byte>, i: nat, value: bytes, ghost c: Conf)
    requires 1 <= i < LINE_COUNT && Holds(to, c, i) && IsCString(value) && value == ValueAt(c, i)
    modifies to
    ensures Holds(to, c, i + 1)
  {
    hide CStr, Concat, Line, KeyAt, ValueAt;
    ConcatNext(Lines(c), i);
    ConcatAround(Lines(c), i);
    KeysAreCStrings(i);
    LineIsCString(KeyAt(i), value);
    Append(to, Line(KeyAt(i), value));
  }

  method AppendNumber(to: array<byte>, i: nat, found: Option<int>, default: int, ghost c: Conf)
    requires 1 <= i < LINE_COUNT && Holds(to, c, i) && Number(Or(found, default)) == ValueAt(c, i)
    modifies to
    ensures Holds(to, c, i + 1)
  {
    hide Holds, Number, KeyAt, ValueAt;
    NumberIsCString(Or(found, default));
    if found == None {
      AppendLine(to, i, Number(default), c);
    } else {
      AppendLine(to, i, Number(found.value), c);
    }
  }

  method AppendTruth(to: array<byte>, i: nat, found: Option<bool>, default: bool, ghost c: Conf)
    requires 1 <= i < LINE_COUNT && Holds(to, c, i) && Truth(Or(found, default)) == ValueAt(c, i)
    modifies to
    ensures Holds(to, c, i + 1)
  {
    hide Holds, KeyAt, ValueAt;
    if found == None {
      AppendLine(to, i, Truth(default), c);
    } else {
      AppendLine(to, i, Truth(found.value), c);
    }
  }

  method StartText(to: array<byte>, ghost c: Conf)
    requires to.Length == STRING_SIZE && |Render(c)| < STRING_SIZE
    modifies to
    ensures Holds(to, c, 1)
  {
    hide CStr, LineAt;
    assert LineAt(c, 0) == HEADER by { HeaderLine(c); }
    HeaderLine(c);
    Put(to, HEADER);
    ConcatOne(HEADER);
    assert Lines(c)[..1] == [HEADER];
  }

  lemma HeaderLine(c: Conf)
    ensures LineAt(c, 0) == HEADER && IsCString(HEADER) && |HEADER| < STRING_SIZE
  {
  }

  /** The part of update_conf between loading the old file and writing the new one: twelve pieces, each
      appended at the end of the text so far. False when the fourth would be an uninitialised buffer. */
  method RenderConf(f: TextFile, e: Entries, d: Defaults, appendString: array<byte>) returns (known: bool)
    requires f.Valid() && f.pos == 0 && !f.eof
    requires IsStorable(Resolved(e, d, f.content)) && |Render(Resolved(e, d, f.content))| < STRING_SIZE
    requires appendString.Length == STRING_SIZE
    modifies f, appendString
    ensures known <==> HasKnownPolicy(e, f.content)
    ensures known ==> CStr(appendString[..]) == Render(Resolved(e, d, f.content))
  {
    hide CStr, ReadPolicy, Holds, Render, Number, Truth, Or;
    ghost var c := Resolved(e, d, f.content);
    StartText(appendString, c);
    AppendTruth(appendString, 1, e.strong, true, c);
    AppendNumber(appendString, 2, e.minLength, d.minLength, c);
    AppendNumber(appendString, 3, e.maxLength, d.maxLength, c);
    if !e.hasPolicy {
      AppendLine(appendString, 4, d.policy, c);
    } else {
      var buff := new byte[LINE_SIZE];
      var outcome := GetValidatePolicy(f, buff);
      ReadOfNothing();
      if outcome != Copied {
        return false;
      }
      AppendLine(appendString, 4, CStr(buff[..]), c);
    }
    AppendNumber(appendString, 5, e.required, d.required, c);
    AppendNumber(appendString, 6, e.palindromeNum, d.palindromeNum, c);
    AppendNumber(appendString, 7, e.wordCheck, d.wordCheck, c);
    AppendNumber(appendString, 8, e.monotoneNum, d.monotoneNum, c);
    AppendNumber(appendString, 9, e.sameNum, d.sameNum, c);
    AppendDictPath(appendString, e.dictPath, c);
    AppendTruth(appendString, 11, e.firstUppercase, false, c);
    HoldsAll(appendString, c);
    known := true;
  }

  lemma ReadOfNothing()
    ensures ReadPolicy([]) == NoValue
  {
  }

  method AppendDictPath(to: array<byte>, found: Option<bytes>, ghost c: Conf)
    requires Holds(to, c, 10) && c.dictPath == Or(found, []) && IsCString(c.dictPath)
    modifies to
    ensures Holds(to, c, 11)
  {
    hide Holds, KeyAt;
    if found == None {
      AppendLine(to, 10, [], c);
    } else {
      AppendLine(to, 10, found.value, c);
    }
  }

  lemma HoldsAll(to: array<byte>, c: Conf)
    requires Holds(to, c, LINE_COUNT)
    ensures CStr(to[..]) == Render(c)
  {
    hide CStr, Concat;
    assert Lines(c)[..LINE_COUNT] == Lines(c);
  }
}
