/** When a policy survives the rewriting of the configuration file, once and again and again. */
module PolicyRewrites {
  import opened CBytes
  import opened PolicyFile

  // ---- what parses to what ----

  lemma DropsNothingIff(s: bytes, c: byte)
    ensures |DropAll(s, c)| == |s| <==> s == [] || s[0] != c
  {
  }

  /** A value stands for itself exactly when it begins with neither a space nor a double quote; what is
      parsed is never longer. */
  lemma ParsesToItselfIff(s: bytes)
    ensures ParseValue(s) == Value(s) <==> s == [] || (s[0] != ' ' && s[0] != '"')
    ensures ParseValue(s).Value? ==> |ParseValue(s).text| <= |s|
  {
    hide DropAll, ParseValue;
    var a := DropAll(s, ' ');
    ParseIsTrimmed(s);
    DropsNothingIff(s, ' ');
    DropsNothingIff(a, '"');
    assert |a| == |s| ==> a == s;
  }

  /** What is kept of a policy is all of it exactly when it has no newline and fits the line buffer. */
  lemma KeepsAllIff(v: bytes)
    ensures |Kept(v)| == |v| <==> '\n' !in v && |v| <= POLICY_SIZE
    ensures |Kept(v)| == |v| ==> Kept(v) == v
  {
    hide Before, KEY;
    if '\n' !in v {
      BeforeIs(v, '\n', v);
    }
    assert |Before(v, '\n')| == |v| ==> Before(v, '\n') == v;
  }

  /** Reading a written file gives the policy back exactly when the policy has no newline, fits the line
      buffer, and does not begin with a space or a double quote. */
  lemma RoundTripIff(c: Conf)
    requires IsStorable(c)
    ensures ReadPolicy(Render(c)) == Value(c.policy)
       <==> '\n' !in c.policy && |c.policy| <= 493
            && (c.policy != [] ==> c.policy[0] != ' ' && c.policy[0] != '"')
  {
    Sizes();
    hide ReadPolicy, Render, ParseValue, Kept, KEY;
    ReadOfRender(c);
    KeepsAllIff(c.policy);
    ParsesToItselfIff(Kept(c.policy));
  }

  // ---- which policies can be read at all ----

  /** How much longer than v the shortest text is that parses to v: a space in front needs a double quote
      before it, and then a double quote at the end needs another one after it. */
  function Quoting(v: bytes): nat {
    if v == [] || v[0] != ' ' then 0 else if v[|v| - 1] == '"' then 2 else 1
  }

  /** A value for which a text of at most n characters is enough. */
  predicate ReadableIn(v: bytes, n: int) {
    IsCString(v) && '\n' !in v && (v != [] ==> v[0] != '"') && |v| + Quoting(v) <= n
  }

  lemma ParsedIsReadable(s: bytes)
    requires IsCString(s) && '\n' !in s && ParseValue(s).Value?
    ensures ReadableIn(ParseValue(s).text, |s|)
  {
    hide DropAll, IsCString, ParseValue, Trimmed, ReadableIn;
    var a := DropAll(s, ' ');
    var b := DropAll(a, '"');
    ParseIsTrimmed(s);
    TrimmedIsReadable(s, b, |a|);
  }

  lemma TrimmedIsReadable(s: bytes, b: bytes, n: nat)
    requires IsCString(s) && '\n' !in s && |b| <= n <= |s| && b == s[|s| - |b|..]
    requires b != [] ==> b[0] != '"' && (n == |b| ==> b[0] != ' ')
    requires Trimmed(b, n).Value?
    ensures ReadableIn(Trimmed(b, n).text, |s|)
  {
    hide IsCString;
    var start, v := |s| - |b|, Trimmed(b, n).text;
    PartIsClean(s, start, start + |v|);
    assert v == s[start..start + |v|];
  }

  lemma PartIsClean(s: bytes, i: nat, j: nat)
    requires IsCString(s) && '\n' !in s && i <= j <= |s|
    ensures IsCString(s[i..j]) && '\n' !in s[i..j]
  {
    assert forall c :: c in s[i..j] ==> c in s;
  }

  function Quoted(v: bytes): bytes {
    if Quoting(v) == 0 then v else if Quoting(v) == 1 then "\"" + v else "\"" + v + "\""
  }

  lemma ParseOfQuoted(v: bytes)
    requires ReadableIn(v, |v| + Quoting(v))
    ensures ParseValue(Quoted(v)) == Value(v)
  {
    hide DropAll;
    var s := Quoted(v);
    if Quoting(v) == 0 {
      ParsesToItselfIff(v);
    } else if Quoting(v) == 1 {
      DropAllIs(s, ' ', 0);
      DropAllIs(s, '"', 1);
      assert s[0..] == s && s[1..] == v;
    } else {
      QuotesAreDropped(v);
    }
  }

  /** Surrounding quotes are dropped. */
  lemma QuotesAreDropped(v: bytes)
    requires v != [] && v[0] != '"'
    ensures ParseValue("\"" + v + "\"") == Value(v)
  {
    hide DropAll;
    var s := "\"" + v + "\"";
    DropAllIs(s, ' ', 0);
    DropAllIs(s, '"', 1);
    assert s[0..] == s && s[1..] == v + "\"";
  }

  /** What is read from any file. */
  lemma ReadIsReadable(text: bytes, v: bytes)
    requires IsCString(text) && ReadPolicy(text) == Value(v)
    ensures ReadableIn(v, POLICY_SIZE + 2)
  {
    hide PolicyChunk, Before, ParseValue, ReadableIn, KEY;
    var c := PolicyChunk(text).value;
    ChunkMembers(text);
    KeyBeforeEquals(c);
    var rest := c[|Before(c, '=')| + 1..];
    var s := Before(rest, '\n');
    assert forall i :: 0 <= i < |s| ==> s[i] == c[|Before(c, '=')| + 1 + i];
    ParsedIsReadable(s);
    ReadableInMore(v, |s|, POLICY_SIZE + 2);
  }

  lemma ReadableInMore(v: bytes, n: int, m: int)
    requires ReadableIn(v, n) && n <= m
    ensures ReadableIn(v, m)
  {
  }

  lemma {:induction false} ChunkMembers(text: bytes)
    requires IsCString(text) && PolicyChunk(text).Some?
    ensures IsCString(PolicyChunk(text).value)
    decreases |text|
  {
    var c := Chunk(text, LINE_SIZE - 1);
    if KEY <= c {
    } else {
      ChunkMembers(text[|c|..]);
    }
  }

  lemma KeyBeforeEquals(c: bytes)
    requires KEY <= c
    ensures |Before(c, '=')| >= |KEY|
  {
    assert '=' !in KEY;
    hide KEY, Before;
    forall i | 0 <= i < |KEY| ensures c[i] != '=' {
      assert c[i] == KEY[i];
      assert KEY[i] in KEY;
    }
  }

  /** A file of one line with the quoted value. */
  function OneLine(v: bytes): bytes {
    KEY + "=" + Quoted(v)
  }

  lemma ReadOfOneLine(v: bytes)
    requires ReadableIn(v, POLICY_SIZE + 2)
    ensures IsCString(OneLine(v)) && ReadPolicy(OneLine(v)) == Value(v)
  {
    OneLineIs(v);
    ParseOfQuoted(v);
    hide KEY, Quoted, Quoting, ReadableIn, ParseValue, ReadPolicy, OneLine, Before;
    var c := OneLine(v);
    ReadOfLine(c);
    BeforeIs(c, '=', KEY);
    BeforeIs(Quoted(v), '\n', Quoted(v));
    assert c[|KEY| + 1..] == Quoted(v);
  }

  lemma ReadOfLine(c: bytes)
    requires KEY <= c && 0 < |c| < LINE_SIZE && '\n' !in c
    ensures ReadPolicy(c) == ParseChunk(c)
  {
    hide KEY, ParseChunk, Chunk;
    ChunkIs(c, LINE_SIZE - 1, c);
  }

  lemma OneLineIs(v: bytes)
    requires ReadableIn(v, POLICY_SIZE + 2)
    ensures OneLine(v) == KEY + "=" + Quoted(v) && '=' !in KEY && '\n' !in Quoted(v)
    ensures IsCString(OneLine(v)) && '\n' !in OneLine(v) && 0 < |OneLine(v)| < LINE_SIZE
  {
  }

  lemma OneLineReads(v: bytes)
    requires ReadableIn(v, POLICY_SIZE + 2)
    ensures v == [] || v[0] != ' ' ==> OneLine(v) == "VALIDATE_POLICY=" + v
    ensures v != [] && v[0] == ' ' && v[|v| - 1] != '"' ==> OneLine(v) == "VALIDATE_POLICY=\"" + v
    ensures v != [] && v[0] == ' ' && v[|v| - 1] == '"' ==> OneLine(v) == "VALIDATE_POLICY=\"" + v + "\""
  {
  }

  /** Some file is read as the policy v exactly when v has no newline and no double quote in front, and
      is at most 495 characters long, or 494 if it begins with a space, or 493 if it then also ends in a
      double quote. */
  lemma ReadableIff(v: bytes)
    ensures (exists text :: IsCString(text) && ReadPolicy(text) == Value(v))
       <==> && IsCString(v) && '\n' !in v && (v != [] ==> v[0] != '"')
            && |v| <= if v == [] || v[0] != ' ' then 495 else if v[|v| - 1] == '"' then 493 else 494
  {
    Sizes();
    hide ReadPolicy, KEY;
    if text :| IsCString(text) && ReadPolicy(text) == Value(v) {
      ReadIsReadable(text, v);
    }
    if ReadableIn(v, POLICY_SIZE + 2) {
      ReadOfOneLine(v);
    }
  }

  // ---- which line is read ----

  /** A line with its newline, or the first 511 characters of a longer one. */
  predicate IsPiece(line: bytes) {
    && 0 < |line| < 512 && (forall i :: 0 <= i < |line| - 1 ==> line[i] != '\n')
    && (|line| == 511 || line[|line| - 1] == '\n')
  }

  lemma PieceIsChunk(line: bytes, rest: bytes)
    requires IsPiece(line)
    ensures Chunk(line + rest, 511) == line && (line + rest)[|line|..] == rest
  {
    ChunkIs(line + rest, 511, line);
  }

  /** What does not begin with the key is passed over: other lines, and pieces of long lines. */
  lemma OtherPieceIsPassedOver(line: bytes, rest: bytes)
    requires IsPiece(line) && !("VALIDATE_POLICY" <= line)
    ensures ReadPolicy(line + rest) == ReadPolicy(rest)
  {
    hide Chunk, ParseChunk, IsPiece;
    PieceIsChunk(line, rest);
    PieceIsNotEmpty(line);
  }

  lemma PieceIsNotEmpty(line: bytes)
    requires IsPiece(line)
    ensures line != []
  {
  }

  /** The first piece that begins with the key is the one that is read, whatever comes after it. */
  lemma FirstPieceIsRead(line: bytes, rest: bytes)
    requires IsPiece(line) && "VALIDATE_POLICY" <= line
    ensures ReadPolicy(line + rest) == ParseChunk(line)
  {
    hide Chunk, ParseChunk, IsPiece;
    PieceIsChunk(line, rest);
    PieceIsNotEmpty(line);
  }

  /** Without an equals sign in it, nothing is read. */
  lemma NoEqualsNoValue(line: bytes)
    requires '=' !in line
    ensures ParseChunk(line) == NoValue
  {
    hide Before;
    BeforeIs(line, '=', line);
  }

  /** Otherwise what stands between the first one and the newline is parsed. */
  lemma PieceParses(line: bytes, before: bytes, rest: bytes)
    requires '=' !in before && line == before + rest && rest != [] && rest[0] == '='
    ensures ParseChunk(line) == ParseValue(Before(rest[1..], '\n'))
  {
    hide ParseValue, Before;
    BeforeIs(line, '=', before);
    assert line[|before| + 1..] == rest[1..];
  }

  // ---- what a value is ----

  /** Spaces in front are dropped, and of what then does not begin with a double quote nothing else. */
  lemma ValueIs(spaces: bytes, v: bytes)
    requires (forall i :: 0 <= i < |spaces| ==> spaces[i] == ' ') && (v != [] ==> v[0] != ' ' && v[0] != '"')
    ensures ParseValue(spaces + v) == Value(v)
  {
    hide DropAll;
    DropAllIs(spaces + v, ' ', |spaces|);
    DropAllIs(v, '"', 0);
    assert (spaces + v)[|spaces|..] == v && v[0..] == v;
  }

  // ---- one rewrite ----

  /** A policy read from any file and written again is read the same exactly when it does not begin with
      a space (one that came from inside quotes) and is at most 493 characters long; then a second
      rewrite of the file changes nothing either. */
  lemma RewriteKeepsPolicyIff(text: bytes, c: Conf)
    requires IsStorable(c) && IsCString(text) && ReadPolicy(text) == Value(c.policy)
    ensures ReadPolicy(Render(c)) == ReadPolicy(text)
       <==> |c.policy| <= 493 && (c.policy != [] ==> c.policy[0] != ' ')
  {
    Sizes();
    hide ReadPolicy, Render;
    ReadIsReadable(text, c.policy);
    RoundTripIff(c);
  }

  /** And both kinds of policies that a rewrite changes can come out of a file. */
  lemma RewriteCanLosePolicy(c: Conf)
    requires IsStorable(c) && ReadableIn(c.policy, POLICY_SIZE + 2)
    requires |c.policy| > POLICY_SIZE || (c.policy != [] && c.policy[0] == ' ')
    ensures ReadPolicy(OneLine(c.policy)) == Value(c.policy) && ReadPolicy(Render(c)) != Value(c.policy)
  {
    hide ReadPolicy, Render, OneLine;
    ReadOfOneLine(c.policy);
    RewriteKeepsPolicyIff(OneLine(c.policy), c);
  }

  /** Only a value of nothing but double quotes leaves the copy undefined. */
  lemma UndefinedIff(s: bytes)
    ensures ParseValue(s) == Undefined
       <==> DropAll(s, ' ') != [] && forall i :: 0 <= i < |DropAll(s, ' ')| ==> DropAll(s, ' ')[i] == '"'
  {
    hide DropAll;
    var a := DropAll(s, ' ');
    var b := DropAll(a, '"');
    if b != [] {
      assert a[|a| - |b|] == b[0];
    }
  }

  // ---- rewriting again and again ----

  /** The values after n more rewrites, each of which keeps everything but what is read as the policy;
      None when that is undefined on the way. */
  function AfterRewrites(c: Conf, n: nat): Option<Conf>
    decreases n
  {
    if n == 0 then Some(c) else
      match ReadPolicy(Render(c))
      case Value(v) => AfterRewrites(c.(policy := v), n - 1)
      case _ => None
  }

  /** What is parsed of what is kept is all of it, or shorter. */
  lemma KeptParses(p: bytes, v: bytes)
    requires IsCString(p) && ParseValue(Kept(p)) == Value(v)
    ensures v == p || |v| < |p|
    ensures ReadableIn(v, POLICY_SIZE)
  {
    hide ParseValue, Kept, KEY, ReadableIn, IsCString;
    var w := Kept(p);
    SliceIsCString(p, 0, |w|);
    assert p[0..|w|] == w;
    ParsedIsReadable(w);
    ReadableInMore(v, |w|, POLICY_SIZE);
    ReadableLength(v, |w|);
    ParsedLength(w, v);
    assert |w| == |p| ==> w == p;
  }

  lemma ParsedLength(w: bytes, v: bytes)
    requires ParseValue(w) == Value(v)
    ensures v == w || |v| < |w|
  {
    hide DropAll;
  }

  /** A rewrite keeps the policy or makes it shorter. */
  lemma RewriteShortens(c: Conf, v: bytes)
    requires IsStorable(c) && ReadPolicy(Render(c)) == Value(v)
    ensures v == c.policy || |v| < |c.policy|
    ensures IsStorable(c.(policy := v)) && ReadableIn(v, POLICY_SIZE)
  {
    hide ReadPolicy, Render, ParseValue, Kept, KEY, ReadableIn;
    ReadOfRender(c);
    KeptParses(c.policy, v);
    ReadableLength(v, POLICY_SIZE);
  }

  lemma ReadableLength(v: bytes, n: int)
    requires ReadableIn(v, n)
    ensures IsCString(v) && |v| <= n
  {
  }

  lemma {:induction false} SettledStays(c: Conf, n: nat)
    requires ReadPolicy(Render(c)) == Value(c.policy)
    ensures AfterRewrites(c, n) == Some(c)
  {
    hide ReadPolicy, Render;
    if n == 0 {
    } else {
      assert c.(policy := c.policy) == c;
      SettledStays(c, n - 1);
    }
  }

  // ---- when repeated rewriting ends in nothing ----

  predicate OnlyBlanks(s: bytes) {
    forall i :: 0 <= i < |s| ==> s[i] == ' ' || s[i] == '"'
  }

  /** Runs of double quotes. */
  function QuoteRuns(s: bytes): nat {
    if s == [] then 0
    else QuoteRuns(s[..|s| - 1]) + if s[|s| - 1] == '"' && (|s| == 1 || s[|s| - 2] != '"') then 1 else 0
  }

  /** Double quotes at the end. */
  function QuotesAtEnd(s: bytes): nat {
    if s == [] || s[|s| - 1] != '"' then 0 else 1 + QuotesAtEnd(s[..|s| - 1])
  }

  /** Nothing but spaces and double quotes, and at the end no fewer double quotes than there are runs of
      them: every rewrite takes the first run off, and one double quote from the end with it. */
  predicate Vanishes(s: bytes) {
    OnlyBlanks(s) && 0 < QuoteRuns(s) <= QuotesAtEnd(s)
  }

  /** Spaces, then at least one double quote. */
  predicate IsLead(x: bytes, k: nat) {
    k < |x| && forall i :: 0 <= i < |x| ==> x[i] == if i < k then ' ' else '"'
  }

  lemma {:induction false} NoQuotes(x: bytes)
    requires forall i :: 0 <= i < |x| ==> x[i] == ' '
    ensures QuoteRuns(x) == 0 && QuotesAtEnd(x) == 0
  {
    if x == [] {
    } else {
      NoQuotes(x[..|x| - 1]);
    }
  }

  lemma {:induction false} LeadIsOneRun(x: bytes, k: nat)
    requires IsLead(x, k)
    ensures QuoteRuns(x) == 1 && QuotesAtEnd(x) == |x| - k
  {
    var y := x[..|x| - 1];
    if |y| == k {
      NoQuotes(y);
    } else {
      LeadIsOneRun(y, k);
    }
  }

  /** After a lead, what begins with another character has its own runs and its own end. */
  lemma {:induction false} LeadAndRest(x: bytes, b: bytes)
    requires b != [] && b[0] != '"'
    ensures QuoteRuns(x + b) == QuoteRuns(x) + QuoteRuns(b) && QuotesAtEnd(x + b) == QuotesAtEnd(b)
  {
    var s, y := x + b, b[..|b| - 1];
    assert s[..|s| - 1] == x + y;
    if y == [] {
      assert x + y == x;
    } else {
      LeadAndRest(x, y);
    }
  }

  /** Taking a double quote off the end takes a run off only if it was the whole run. */
  lemma OneQuoteLess(b: bytes)
    requires b != [] && b[|b| - 1] == '"'
    ensures var v := b[..|b| - 1];
            && QuotesAtEnd(b) == QuotesAtEnd(v) + 1
            && QuoteRuns(b) == QuoteRuns(v) + (if QuotesAtEnd(v) == 0 then 1 else 0)
            && (OnlyBlanks(b) <==> OnlyBlanks(v))
  {
  }

  lemma {:induction false} EndQuotesAreARun(s: bytes)
    ensures QuotesAtEnd(s) > 0 ==> QuoteRuns(s) > 0
  {
    if s == [] {
    } else {
      EndQuotesAreARun(s[..|s| - 1]);
    }
  }

  lemma OnlyBlanksOfParts(x: bytes, b: bytes)
    ensures OnlyBlanks(x + b) <==> OnlyBlanks(x) && OnlyBlanks(b)
  {
    var s := x + b;
    if OnlyBlanks(s) {
      assert forall i :: 0 <= i < |x| ==> x[i] == s[i];
      assert forall i :: 0 <= i < |b| ==> b[i] == s[|x| + i];
    }
  }

  /** Parsing changes neither what vanishes nor what does not; what parses to nothing vanishes. */
  lemma ParsingKeepsVanishing(s: bytes)
    ensures match ParseValue(s)
            case Value(v) => Vanishes(v) <==> Vanishes(s)
            case _ => Vanishes(s)
  {
    hide DropAll, OnlyBlanks, QuoteRuns, QuotesAtEnd;
    var a := DropAll(s, ' ');
    var b := DropAll(a, '"');
    var x := s[..|s| - |b|];
    assert s == x + b;
    if |a| == |b| {
      SpacesOrNotBlank(s, x, a);
    } else {
      var k := |s| - |a|;
      assert IsLead(x, k);
      LeadIsOneRun(x, k);
      LeadIsBlank(x, k);
      OnlyBlanksOfParts(x, b);
      if b == [] {
        assert x + b == x;
        EmptyIsBlank();
      } else {
        LeadAndRest(x, b);
        EndQuotesAreARun(b);
        if b[|b| - 1] == '"' {
          OneQuoteLess(b);
          EndQuotesAreARun(b[..|b| - 1]);
        } else {
          NoQuoteAtEnd(b);
        }
      }
    }
  }

  lemma LeadIsBlank(x: bytes, k: nat)
    requires IsLead(x, k)
    ensures OnlyBlanks(x)
  {
  }

  lemma EmptyIsBlank()
    ensures OnlyBlanks([])
  {
  }

  lemma NoQuoteAtEnd(b: bytes)
    requires b != [] && b[|b| - 1] != '"'
    ensures QuotesAtEnd(b) == 0
  {
  }

  /** Without a double quote after the leading spaces, nothing vanishes. */
  lemma SpacesOrNotBlank(s: bytes, x: bytes, a: bytes)
    requires s == x + a && (forall i :: 0 <= i < |x| ==> x[i] == ' ')
    requires a != [] ==> a[0] != ' ' && a[0] != '"'
    ensures !Vanishes(s) && !Vanishes(a)
  {
    if a == [] {
      assert s == x;
      NoQuotes(x);
    } else {
      assert s[|x|] == a[0];
    }
  }

  /** However often the file is rewritten, the policy settles: after at most as many rewrites as it has
      characters it is read as it was written, unless what is kept of it at the first vanishes, and then
      at some rewrite nothing but double quotes is left and the copy is undefined. */
  lemma {:induction false} RewritesSettle(c: Conf, n: nat)
    requires IsStorable(c) && |c.policy| <= n
    ensures AfterRewrites(c, n) == None <==> Vanishes(Kept(c.policy))
    ensures AfterRewrites(c, n).Some? ==>
              ReadPolicy(Render(AfterRewrites(c, n).value)) == Value(AfterRewrites(c, n).value.policy)
    decreases n
  {
    hide ReadPolicy, Render, Kept, Vanishes, ReadableIn, KEY, ParseValue;
    ReadOfRender(c);
    ParsingKeepsVanishing(Kept(c.policy));
    ReadOfEmpty(c);
    if n == 0 {
      SettledDoesNotVanish(c);
    } else if ReadPolicy(Render(c)).Value? {
      var v := ReadPolicy(Render(c)).text;
      RewriteShortens(c, v);
      if v == c.policy {
        SettledStays(c, n);
        SettledDoesNotVanish(c);
      } else {
        KeptOfReadable(v);
        RewritesSettle(c.(policy := v), n - 1);
      }
    }
  }

  lemma ReadOfEmpty(c: Conf)
    requires IsStorable(c)
    ensures c.policy == [] ==> ReadPolicy(Render(c)) == Value(c.policy)
  {
    hide ReadPolicy, Render;
    RoundTripIff(c);
  }

  lemma KeptOfReadable(v: bytes)
    requires ReadableIn(v, POLICY_SIZE)
    ensures Kept(v) == v
  {
    hide KEY;
    KeepsAllIff(v);
  }

  lemma SettledDoesNotVanish(c: Conf)
    requires IsStorable(c) && ReadPolicy(Render(c)) == Value(c.policy)
    ensures !Vanishes(Kept(c.policy))
  {
    hide ReadPolicy, Render, Kept, KEY;
    RoundTripIff(c);
    KeepsAllIff(c.policy);
  }
}
