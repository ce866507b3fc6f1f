/** The two places of lib/deepin_pw_check.c that count character classes: the built-in policy and the
    strength of a new password. */
module Classes {
  import opened CBytes
  import opened PwErrors
  import opened TypePolicy

  // ---- the four classes ----

  predicate IsDigit(c: byte) { '0' <= c <= '9' }

  predicate IsLower(c: byte) { 'a' <= c <= 'z' }

  predicate IsUpper(c: byte) { 'A' <= c <= 'Z' }

  /** Everything else, printable or not. */
  predicate IsOther(c: byte) { !IsDigit(c) && !IsLower(c) && !IsUpper(c) }

  predicate Has(pw: bytes, p: byte -> bool) {
    exists i :: 0 <= i < |pw| && p(pw[i])
  }

  function ClassCount(pw: bytes): nat {
    One(Has(pw, IsUpper)) + One(Has(pw, IsLower)) + One(Has(pw, IsDigit)) + One(Has(pw, IsOther))
  }

  // ---- the strength of a new password ----

  datatype StrengthOptions = StrengthOptions(lengthHigh: int, lengthMiddle: int, typesHigh: int, typesMiddle: int)

  function Level(o: StrengthOptions, pw: Option<bytes>): Strength {
    if pw == None then Error
    else if |pw.value| >= o.lengthHigh && ClassCount(pw.value) >= o.typesHigh then High
    else if |pw.value| >= o.lengthMiddle && ClassCount(pw.value) >= o.typesMiddle then Middle
    else Low
  }

  /** A level needs both, the length and the classes; a password that lacks either never has it. */
  lemma LevelIs(o: StrengthOptions, pw: bytes)
    ensures Level(o, None) == Error
    ensures Level(o, Some(pw)) == High <==> |pw| >= o.lengthHigh && ClassCount(pw) >= o.typesHigh
    ensures Level(o, Some(pw)) == Middle
       <==> && (|pw| < o.lengthHigh || ClassCount(pw) < o.typesHigh)
            && |pw| >= o.lengthMiddle && ClassCount(pw) >= o.typesMiddle
    ensures Level(o, Some(pw)) == Low
       <==> && (|pw| < o.lengthHigh || ClassCount(pw) < o.typesHigh)
            && (|pw| < o.lengthMiddle || ClassCount(pw) < o.typesMiddle)
  {
  }

  /** The classes are counted once each, by capitals, small letters, figures and everything else. */
  lemma ClassCountIs(pw: bytes)
    ensures ClassCount(pw) == 4
       <==> && (exists i :: 0 <= i < |pw| && pw[i] in UPPER) && (exists i :: 0 <= i < |pw| && pw[i] in LOWER)
            && (exists i :: 0 <= i < |pw| && pw[i] in DIGITS)
            && (exists i :: 0 <= i < |pw| && pw[i] !in UPPER && pw[i] !in LOWER && pw[i] !in DIGITS)
    ensures ClassCount(pw) == 0 <==> pw == []
    ensures ClassCount(pw) == 1 && |pw| > 0 && pw[0] in UPPER ==> forall i :: 0 <= i < |pw| ==> pw[i] in UPPER
  {
    hide UPPER, LOWER, DIGITS;
    forall i | 0 <= i < |pw|
      ensures pw[i] in UPPER <==> IsUpper(pw[i])
      ensures pw[i] in LOWER <==> IsLower(pw[i])
      ensures pw[i] in DIGITS <==> IsDigit(pw[i])
    {
      InAlphabets(pw[i]);
    }
    if pw != [] {
      assert IsUpper(pw[0]) || IsLower(pw[0]) || IsDigit(pw[0]) || IsOther(pw[0]);
    }
  }

  method StrengthLevel(o: StrengthOptions, newPasswd: Option<bytes>) returns (level: Strength)
    ensures level == Level(o, newPasswd)
  {
    if newPasswd == None {
      return Error;
    }
    var pw := newPasswd.value;
    var upperCount, lowerCount, numberCount, characterCount := 0, 0, 0, 0;
    var length := |pw|;
    for i := 0 to length
      invariant 0 <= upperCount && (upperCount > 0 <==> Has(pw[..i], IsUpper))
      invariant 0 <= lowerCount && (lowerCount > 0 <==> Has(pw[..i], IsLower))
      invariant 0 <= numberCount && (numberCount > 0 <==> Has(pw[..i], IsDigit))
      invariant 0 <= characterCount && (characterCount > 0 <==> Has(pw[..i], IsOther))
    {
      var c := pw[i];
      HasMore(pw, i, IsUpper);
      HasMore(pw, i, IsLower);
      HasMore(pw, i, IsDigit);
      HasMore(pw, i, IsOther);
      if 'a' <= c <= 'z' {
        lowerCount := lowerCount + 1;
      } else if 'A' <= c <= 'Z' {
        upperCount := upperCount + 1;
      } else if '0' <= c <= '9' {
        numberCount := numberCount + 1;
      } else {
        characterCount := characterCount + 1;
      }
    }
    assert pw[..length] == pw;
    var types := One(upperCount > 0) + One(lowerCount > 0) + One(numberCount > 0) + One(characterCount > 0);
    if length >= o.lengthHigh && types >= o.typesHigh {
      level := High;
    } else if length >= o.lengthMiddle && types >= o.typesMiddle {
      level := Middle;
    } else {
      level := Low;
    }
  }

  lemma HasMore(pw: bytes, i: nat, p: byte -> bool)
    requires i < |pw|
    ensures Has(pw[..i + 1], p) <==> Has(pw[..i], p) || p(pw[i])
  {
    var s, t := pw[..i + 1], pw[..i];
    if k :| 0 <= k < |t| && p(t[k]) {
      assert p(s[k]);
    }
    if p(pw[i]) {
      assert p(s[i]);
    }
    if k :| 0 <= k < |s| && p(s[k]) {
      assert k == i || p(t[k]);
    }
  }

  function Rank(s: Strength): int {
    match s case Error => 0 case Low => 1 case Middle => 2 case High => 3
  }

  lemma HasAppended(pw: bytes, more: bytes, p: byte -> bool)
    ensures Has(pw, p) ==> Has(pw + more, p)
  {
    if k :| 0 <= k < |pw| && p(pw[k]) {
      assert p((pw + more)[k]);
    }
  }

  /** Appending characters never lowers the strength. */
  lemma StrengthNeverDrops(o: StrengthOptions, pw: bytes, more: bytes)
    ensures Rank(Level(o, Some(pw))) <= Rank(Level(o, Some(pw + more)))
  {
    HasAppended(pw, more, IsUpper);
    HasAppended(pw, more, IsLower);
    HasAppended(pw, more, IsDigit);
    HasAppended(pw, more, IsOther);
  }

  // ---- the built-in policy ----

  const POLICY_DIGITS: bytes := "1234567890"
  const SYMBOLS1: bytes := "!\"#$%&'()*+,-./:"
  const SYMBOLS2: bytes := "<=>?@[\\]^_`{|}~/"

  const BUILT_IN: bytes := POLICY_DIGITS + ";" + LOWER + ";" + UPPER + ";" + SYMBOLS1 + ";" + SYMBOLS2

  lemma InPolicyDigits(c: byte)
    ensures c in POLICY_DIGITS <==> IsDigit(c)
  {
    if IsDigit(c) {
      assert POLICY_DIGITS[if c == '0' then 9 else c as int - '1' as int] == c;
    }
  }

  lemma InSymbols(c: byte)
    ensures c in SYMBOLS1 <==> 33 <= c as int <= 47 || c == ':'
    ensures c in SYMBOLS2 <==> 60 <= c as int <= 64 || 91 <= c as int <= 96 || 123 <= c as int <= 126 || c == '/'
  {
    var k := c as int;
    if 33 <= k <= 47 { assert SYMBOLS1[k - 33] == c; }
    if c == ':' { assert SYMBOLS1[15] == c; }
    if 60 <= k <= 64 { assert SYMBOLS2[k - 60] == c; }
    if 91 <= k <= 96 { assert SYMBOLS2[k - 86] == c; }
    if 123 <= k <= 126 { assert SYMBOLS2[k - 112] == c; }
    if c == '/' { assert SYMBOLS2[15] == c; }
  }

  lemma BuiltInTokens()
    ensures IsPlain(POLICY_DIGITS) && IsPlain(LOWER) && IsPlain(UPPER) && IsPlain(SYMBOLS1) && IsPlain(SYMBOLS2)
    ensures !IsSymbol(POLICY_DIGITS[0]) && !IsSymbol(LOWER[0]) && !IsSymbol(UPPER[0])
    ensures IsSymbol(SYMBOLS1[0]) && IsSymbol(SYMBOLS2[0])
  {
    InPolicyDigits(';');
    InAlphabets(';');
    InSymbols(';');
  }

  lemma BuiltInGroups()
    ensures Groups(BUILT_IN) == [POLICY_DIGITS, LOWER, UPPER, SYMBOLS1 + ";" + SYMBOLS2]
  {
    BuiltInTokens();
    hide Groups, POLICY_DIGITS, LOWER, UPPER, SYMBOLS1, SYMBOLS2, IsSymbol;
    var symbols := SYMBOLS1 + ";" + SYMBOLS2;
    GluedGroup(SYMBOLS1, SYMBOLS2);
    PlainGroup(UPPER, symbols);
    PlainGroup(LOWER, UPPER + ";" + symbols);
    PlainGroup(POLICY_DIGITS, LOWER + ";" + (UPPER + ";" + symbols));
    assert BUILT_IN == POLICY_DIGITS + ";" + (LOWER + ";" + (UPPER + ";" + symbols));
  }

  predicate Printable(pw: bytes) {
    forall i :: 0 <= i < |pw| ==> 33 <= pw[i] as int <= 126
  }

  lemma HitsIsHas(pw: bytes, group: bytes, p: byte -> bool)
    requires forall i :: 0 <= i < |pw| ==> (pw[i] in group <==> p(pw[i]))
    ensures Hits(group, pw) <==> Has(pw, p)
  {
  }

  lemma BuiltInHits(pw: bytes)
    requires Printable(pw)
    ensures HitCount(Groups(BUILT_IN), pw) == ClassCount(pw)
  {
    forall i | 0 <= i < |pw|
      ensures pw[i] in POLICY_DIGITS <==> IsDigit(pw[i])
      ensures pw[i] in LOWER <==> IsLower(pw[i])
      ensures pw[i] in UPPER <==> IsUpper(pw[i])
      ensures pw[i] in SYMBOLS1 + ";" + SYMBOLS2 <==> IsOther(pw[i])
    {
      InPolicyDigits(pw[i]);
      InAlphabets(pw[i]);
      InSymbols(pw[i]);
    }
    hide POLICY_DIGITS, LOWER, UPPER, SYMBOLS1, SYMBOLS2, Hits, Has, Groups;
    HitsIsHas(pw, POLICY_DIGITS, IsDigit);
    HitsIsHas(pw, LOWER, IsLower);
    HitsIsHas(pw, UPPER, IsUpper);
    var symbols := SYMBOLS1 + ";" + SYMBOLS2;
    HitsIsHas(pw, symbols, IsOther);
    BuiltInGroups();
    FourHits(POLICY_DIGITS, LOWER, UPPER, symbols, pw);
  }

  lemma FourHits(g0: bytes, g1: bytes, g2: bytes, g3: bytes, pw: bytes)
    ensures HitCount([g0, g1, g2, g3], pw)
         == One(Hits(g0, pw)) + One(Hits(g1, pw)) + One(Hits(g2, pw)) + One(Hits(g3, pw))
    ensures Concat([g0, g1, g2, g3]) == g0 + (g1 + (g2 + (g3 + [])))
  {
    hide Hits, Concat, HitCount;
    Cons(g0, [g1, g2, g3], pw);
    Cons(g1, [g2, g3], pw);
    Cons(g2, [g3], pw);
    Cons(g3, [], pw);
    ConcatOfNothing(pw);
    assert [g0, g1, g2, g3] == [g0] + [g1, g2, g3] && [g1, g2, g3] == [g1] + [g2, g3];
    assert [g2, g3] == [g2] + [g3] && [g3] == [g3] + [];
  }

  lemma BuiltInAllows(c: byte)
    ensures c in Concat(Groups(BUILT_IN)) <==> 33 <= c as int <= 126
  {
    InPolicyDigits(c);
    InAlphabets(c);
    InSymbols(c);
    hide POLICY_DIGITS, LOWER, UPPER, SYMBOLS1, SYMBOLS2, Groups, Concat;
    BuiltInGroups();
    FourHits(POLICY_DIGITS, LOWER, UPPER, SYMBOLS1 + ";" + SYMBOLS2, []);
  }

  /** With the built-in policy a password passes exactly when all its characters are codes 33 to 126
      and it has the required number of the classes that the strength function counts. */
  lemma BuiltInPolicyCountsClasses(pw: bytes, required: int)
    ensures TypeVerdict(pw, BUILT_IN, required) == NoErr <==> Printable(pw) && ClassCount(pw) >= required
  {
    forall i | 0 <= i < |pw| ensures pw[i] in Concat(Groups(BUILT_IN)) <==> 33 <= pw[i] as int <= 126 {
      BuiltInAllows(pw[i]);
    }
    hide BUILT_IN, Groups, Concat, HitCount, ClassCount;
    if Printable(pw) {
      BuiltInHits(pw);
    }
  }
}
