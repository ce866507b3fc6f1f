/** The decision of lib/deepin_pw_check.c: checks in a fixed order, the first complaint wins. */
module PwCheck {
  import opened CBytes
  import opened PwErrors
  import TypePolicy
  import Palindromes = Palindrome
  import RunScanners
  import Classes
  import PolicyGrowth
  import PolicyFile
  import PolicyRewrites

  /** The loaded configuration, as far as the decision reads it. */
  datatype Options = Options(
    enabled: bool, minLen: int, maxLen: int, characterType: bytes, characterNumRequired: int,
    palindromeMinNum: int, checkWord: bool, firstLetterUppercase: bool,
    monotoneCharacterNum: int, consecutiveSameCharacterNum: int)

  predicate IsFirstLetterUppercase(pw: bytes) {
    pw != [] && 'A' <= pw[0] <= 'Z'
  }

  function LengthVerdict(pw: bytes, minLen: int, maxLen: int): PwError {
    if |pw| < minLen then LengthShort else if |pw| > maxLen then LengthLong else NoErr
  }

  const CHECKS := 9

  /** What check number k has to say about a password. Each check stands on its own: it does not
      suppose that the ones before it passed. */
  ghost function Complaint(o: Options, user: bytes, pw: bytes, isWord: bytes -> bool, k: nat): PwError
    requires k < CHECKS
  {
    if k == 0 then if pw == [] then PasswordEmpty else NoErr
    else if !o.enabled then NoErr
    else match k
      case 1 => LengthVerdict(pw, o.minLen, o.maxLen)
      case 2 => if o.firstLetterUppercase && !IsFirstLetterUppercase(pw) then FirstUpper else NoErr
      case 3 => if o.minLen >= 8 && o.characterNumRequired >= 3 && user == pw then SameAsUsername else NoErr
      case 4 => TypePolicy.TypeVerdict(pw, o.characterType, o.characterNumRequired)
      case 5 => if o.palindromeMinNum > 0 && Palindromes.Caught(pw, o.palindromeMinNum) then PwError.Palindrome
                else NoErr
      case 6 => if o.checkWord && isWord(pw) then Word else NoErr
      case 7 => if o.monotoneCharacterNum > 0 && RunScanners.Monotone(pw, o.monotoneCharacterNum) then PwError.Monotone
                else NoErr
      case _ => if o.consecutiveSameCharacterNum > 0 && RunScanners.HasSameRun(pw, o.consecutiveSameCharacterNum)
                then ConsecutiveSame else NoErr
  }

  /** The first complaint of the checks from number k on. */
  ghost function FirstFrom(o: Options, user: bytes, pw: bytes, isWord: bytes -> bool, k: nat): PwError
    requires k <= CHECKS
    decreases CHECKS - k
  {
    if k == CHECKS then NoErr
    else if Complaint(o, user, pw, isWord, k) != NoErr then Complaint(o, user, pw, isWord, k)
    else FirstFrom(o, user, pw, isWord, k + 1)
  }

  ghost function Verdict(options: Option<Options>, user: bytes, pw: bytes, isWord: bytes -> bool): PwError {
    if options == None then Para else FirstFrom(options.value, user, pw, isWord, 0)
  }

  /** `deepin_pw_check_by_conf`, with the configuration loaded (None when it cannot be) and the
      dictionary as an oracle. */
  method Check(options: Option<Options>, user: bytes, pw: bytes, isWord: bytes -> bool) returns (ret: PwError)
    requires options.Some? ==> IsCString(options.value.characterType) && |options.value.characterType| < 512
    ensures ret == Verdict(options, user, pw, isWord)
  {
    hide TypePolicy.TypeVerdict, Palindromes.Caught, RunScanners.Monotone, RunScanners.HasSameRun;
    if options == None {
      return Para;
    }
    var o := options.value;
    if pw == [] {
      return PasswordEmpty;
    }
    if !o.enabled {
      FirstIs(o, user, pw, isWord, CHECKS);
      return NoErr;
    }
    ret := CheckEnabled(o, user, pw, isWord);
  }

  /** The checks that can be switched off together. */
  method CheckEnabled(o: Options, user: bytes, pw: bytes, isWord: bytes -> bool) returns (ret: PwError)
    requires IsCString(o.characterType) && |o.characterType| < 512
    requires o.enabled && pw != []
    ensures ret == FirstFrom(o, user, pw, isWord, 0)
  {
    hide TypePolicy.TypeVerdict, Palindromes.Caught, RunScanners.Monotone, RunScanners.HasSameRun, FirstFrom;
    ret := LengthVerdict(pw, o.minLen, o.maxLen);
    if ret != NoErr {
      FirstIs(o, user, pw, isWord, 1);
      return;
    }
    if o.firstLetterUppercase {
      if !IsFirstLetterUppercase(pw) {
        FirstIs(o, user, pw, isWord, 2);
        return FirstUpper;
      }
    }
    if o.minLen >= 8 && o.characterNumRequired >= 3 && user == pw {
      FirstIs(o, user, pw, isWord, 3);
      return SameAsUsername;
    }
    ret := TypePolicy.IsTypeValid(pw, o.characterType, o.characterNumRequired);
    if ret != NoErr {
      FirstIs(o, user, pw, isWord, 4);
      return;
    }
    assert forall i :: 0 <= i < 5 ==> Complaint(o, user, pw, isWord, i) == NoErr;
    if o.palindromeMinNum > 0 {
      var found := Palindromes.IncludesPalindrome(pw, o.palindromeMinNum);
      if found {
        FirstIs(o, user, pw, isWord, 5);
        return PwError.Palindrome;
      }
    }
    if o.checkWord {
      if isWord(pw) {
        FirstIs(o, user, pw, isWord, 6);
        return Word;
      }
    }
    if o.monotoneCharacterNum > 0 {
      var found := RunScanners.IsMonotoneCharacter(pw, o.monotoneCharacterNum);
      if found {
        FirstIs(o, user, pw, isWord, 7);
        return PwError.Monotone;
      }
    }
    assert forall i :: 0 <= i < 8 ==> Complaint(o, user, pw, isWord, i) == NoErr;
    if o.consecutiveSameCharacterNum > 0 {
      var found := RunScanners.IsConsecutiveSameCharacter(pw, o.consecutiveSameCharacterNum);
      if found {
        FirstIs(o, user, pw, isWord, 8);
        return ConsecutiveSame;
      }
    }
    FirstIs(o, user, pw, isWord, 9);
    return NoErr;
  }

  lemma {:induction false} FirstIs(o: Options, user: bytes, pw: bytes, isWord: bytes -> bool, k: nat)
    requires k <= CHECKS && forall i :: 0 <= i < k ==> Complaint(o, user, pw, isWord, i) == NoErr
    ensures k == CHECKS ==> FirstFrom(o, user, pw, isWord, 0) == NoErr
    ensures k < CHECKS && Complaint(o, user, pw, isWord, k) != NoErr ==>
              FirstFrom(o, user, pw, isWord, 0) == Complaint(o, user, pw, isWord, k)
  {
    hide Complaint;
    var i := k;
    while i > 0
      invariant 0 <= i <= k && FirstFrom(o, user, pw, isWord, i) == FirstFrom(o, user, pw, isWord, k)
    {
      i := i - 1;
    }
  }

  /** A password is accepted exactly when no check complains. */
  lemma AcceptedIffNoComplaint(o: Options, user: bytes, pw: bytes, isWord: bytes -> bool)
    ensures Verdict(Some(o), user, pw, isWord) == NoErr
       <==> forall k :: 0 <= k < CHECKS ==> Complaint(o, user, pw, isWord, k) == NoErr
  {
    hide Complaint;
    if forall k :: 0 <= k < CHECKS ==> Complaint(o, user, pw, isWord, k) == NoErr {
      FirstIs(o, user, pw, isWord, CHECKS);
    } else {
      var k := 0;
      while Complaint(o, user, pw, isWord, k) == NoErr
        invariant 0 <= k < CHECKS && forall i :: 0 <= i < k ==> Complaint(o, user, pw, isWord, i) == NoErr
        decreases CHECKS - k
      {
        k := k + 1;
      }
      FirstIs(o, user, pw, isWord, k);
    }
  }

  /** The whole decision, check by check: which result is returned when. */
  lemma VerdictIs(o: Options, user: bytes, pw: bytes, isWord: bytes -> bool)
    ensures Verdict(None, user, pw, isWord) == Para
    ensures Verdict(Some(o), user, pw, isWord)
         == if |pw| == 0 then PasswordEmpty
            else if !o.enabled then NoErr
            else if |pw| < o.minLen then LengthShort
            else if |pw| > o.maxLen then LengthLong
            else if o.firstLetterUppercase && pw[0] !in UPPER then FirstUpper
            else if o.minLen >= 8 && o.characterNumRequired >= 3 && user == pw then SameAsUsername
            else if HasTwoHighBytes(pw) || HasOther(pw, Concat(TypePolicy.Groups(o.characterType)))
            then CharacterInvalid
            else if TypePolicy.HitCount(TypePolicy.Groups(o.characterType), pw) < o.characterNumRequired
            then CharacterTypeTooFew
            else if o.palindromeMinNum > 0 && Palindromes.Caught(pw, o.palindromeMinNum) then PwError.Palindrome
            else if o.checkWord && isWord(pw) then Word
            else if o.monotoneCharacterNum > 0 && RunScanners.Monotone(pw, o.monotoneCharacterNum)
            then PwError.Monotone
            else if o.consecutiveSameCharacterNum > 0
                    && RunScanners.HasSameRun(pw, o.consecutiveSameCharacterNum)
            then ConsecutiveSame
            else NoErr
  {
    hide TypePolicy.TypeVerdict, TypePolicy.Groups, TypePolicy.HitCount, Palindromes.Caught, RunScanners.Monotone,
         RunScanners.HasSameRun, UPPER, HasTwoHighBytes, HasOther, FirstFrom, Complaint;
    TypeVerdictIs(pw, o.characterType, o.characterNumRequired);
    EarlyComplaints(o, user, pw, isWord);
    if o.enabled {
      LateComplaints(o, user, pw, isWord);
    }
    UnrollFirst(o, user, pw, isWord);
  }

  lemma EarlyComplaints(o: Options, user: bytes, pw: bytes, isWord: bytes -> bool)
    ensures Complaint(o, user, pw, isWord, 0) == if pw == [] then PasswordEmpty else NoErr
    ensures !o.enabled ==> forall k :: 1 <= k < CHECKS ==> Complaint(o, user, pw, isWord, k) == NoErr
    ensures o.enabled ==>
              Complaint(o, user, pw, isWord, 1)
              == if |pw| < o.minLen then LengthShort else if |pw| > o.maxLen then LengthLong else NoErr
    ensures o.enabled && pw != [] ==>
              Complaint(o, user, pw, isWord, 2)
              == if o.firstLetterUppercase && pw[0] !in UPPER then FirstUpper else NoErr
    ensures o.enabled ==>
              Complaint(o, user, pw, isWord, 3)
              == if o.minLen >= 8 && o.characterNumRequired >= 3 && user == pw then SameAsUsername else NoErr
  {
    hide TypePolicy.TypeVerdict, Palindromes.Caught, RunScanners.Monotone, RunScanners.HasSameRun, UPPER;
    if pw != [] {
      InAlphabets(pw[0]);
    }
  }

  lemma LateComplaints(o: Options, user: bytes, pw: bytes, isWord: bytes -> bool)
    requires o.enabled
    ensures Complaint(o, user, pw, isWord, 4) == TypePolicy.TypeVerdict(pw, o.characterType, o.characterNumRequired)
    ensures Complaint(o, user, pw, isWord, 5)
         == if o.palindromeMinNum > 0 && Palindromes.Caught(pw, o.palindromeMinNum) then PwError.Palindrome else NoErr
    ensures Complaint(o, user, pw, isWord, 6) == if o.checkWord && isWord(pw) then Word else NoErr
    ensures Complaint(o, user, pw, isWord, 7)
         == if o.monotoneCharacterNum > 0 && RunScanners.Monotone(pw, o.monotoneCharacterNum) then PwError.Monotone
            else NoErr
    ensures Complaint(o, user, pw, isWord, 8)
         == if o.consecutiveSameCharacterNum > 0 && RunScanners.HasSameRun(pw, o.consecutiveSameCharacterNum)
            then ConsecutiveSame else NoErr
  {
    hide TypePolicy.TypeVerdict, Palindromes.Caught, RunScanners.Monotone, RunScanners.HasSameRun;
  }

  ghost predicate HasTwoHighBytes(pw: bytes) {
    exists i :: 0 <= i < |pw| - 1 && 128 <= pw[i] as int <= 255 && 128 <= pw[i + 1] as int <= 255
  }

  predicate HasOther(pw: bytes, allowed: bytes) {
    exists i :: 0 <= i < |pw| && pw[i] !in allowed
  }

  lemma TypeVerdictIs(pw: bytes, policy: bytes, required: int)
    ensures TypePolicy.TypeVerdict(pw, policy, required)
         == if HasTwoHighBytes(pw) || HasOther(pw, Concat(TypePolicy.Groups(policy))) then CharacterInvalid
            else if TypePolicy.HitCount(TypePolicy.Groups(policy), pw) < required then CharacterTypeTooFew
            else NoErr
  {
    hide TypePolicy.Groups, TypePolicy.HitCount;
    assert TypePolicy.HasHighPair(pw) <==> HasTwoHighBytes(pw);
  }

  lemma UnrollFirst(o: Options, user: bytes, pw: bytes, isWord: bytes -> bool)
    ensures FirstFrom(o, user, pw, isWord, 0)
         == if Complaint(o, user, pw, isWord, 0) != NoErr then Complaint(o, user, pw, isWord, 0)
            else if Complaint(o, user, pw, isWord, 1) != NoErr then Complaint(o, user, pw, isWord, 1)
            else if Complaint(o, user, pw, isWord, 2) != NoErr then Complaint(o, user, pw, isWord, 2)
            else if Complaint(o, user, pw, isWord, 3) != NoErr then Complaint(o, user, pw, isWord, 3)
            else if Complaint(o, user, pw, isWord, 4) != NoErr then Complaint(o, user, pw, isWord, 4)
            else if Complaint(o, user, pw, isWord, 5) != NoErr then Complaint(o, user, pw, isWord, 5)
            else if Complaint(o, user, pw, isWord, 6) != NoErr then Complaint(o, user, pw, isWord, 6)
            else if Complaint(o, user, pw, isWord, 7) != NoErr then Complaint(o, user, pw, isWord, 7)
            else Complaint(o, user, pw, isWord, 8)
  {
    hide Complaint, FirstFrom;
    NextCheck(o, user, pw, isWord, 0);
    NextCheck(o, user, pw, isWord, 1);
    NextCheck(o, user, pw, isWord, 2);
    NextCheck(o, user, pw, isWord, 3);
    NextCheck(o, user, pw, isWord, 4);
    NextCheck(o, user, pw, isWord, 5);
    NextCheck(o, user, pw, isWord, 6);
    NextCheck(o, user, pw, isWord, 7);
    NextCheck(o, user, pw, isWord, 8);
  }

  lemma NextCheck(o: Options, user: bytes, pw: bytes, isWord: bytes -> bool, k: nat)
    requires k < CHECKS
    ensures FirstFrom(o, user, pw, isWord, k)
         == if Complaint(o, user, pw, isWord, k) != NoErr then Complaint(o, user, pw, isWord, k)
            else FirstFrom(o, user, pw, isWord, k + 1)
    ensures FirstFrom(o, user, pw, isWord, CHECKS) == NoErr
  {
    hide Complaint;
  }

  // ---- relaxing the configuration ----

  /** A limit that is switched off or raised. */
  predicate LimitRelaxed(n: int, n': int) {
    n' <= 0 || (n > 0 && n <= n')
  }

  /** The palindrome limit switched off, kept, or raised as far as the length of the password allows. */
  predicate PalindromeRelaxed(n: int, n': int, length: nat) {
    n' <= 0 || n' == n || (0 < n < n' && length <= 2 * n + 2 * n')
  }

  /** The policy kept, or with one more group: any group behind it, or in front of it a group that does not
      begin with a symbol. */
  ghost predicate PolicyRelaxed(policy: bytes, policy': bytes) {
    || policy' == policy
    || (exists g :: policy' == PolicyGrowth.WithLast(policy, g))
    || (exists g :: TypePolicy.IsPlain(g) && !TypePolicy.IsSymbol(g[0]) && policy' == PolicyGrowth.WithFirst(g, policy))
  }

  ghost predicate Relaxed(o: Options, o': Options, length: nat) {
    && (o'.enabled ==> o.enabled)
    && o'.minLen <= o.minLen && o.maxLen <= o'.maxLen
    && PolicyRelaxed(o.characterType, o'.characterType) && o'.characterNumRequired <= o.characterNumRequired
    && PalindromeRelaxed(o.palindromeMinNum, o'.palindromeMinNum, length)
    && (o'.checkWord ==> o.checkWord) && (o'.firstLetterUppercase ==> o.firstLetterUppercase)
    && LimitRelaxed(o.monotoneCharacterNum, o'.monotoneCharacterNum)
    && LimitRelaxed(o.consecutiveSameCharacterNum, o'.consecutiveSameCharacterNum)
  }

  lemma RelaxedTypes(pw: bytes, policy: bytes, policy': bytes, required: int, required': int)
    requires PolicyRelaxed(policy, policy') && required' <= required
    requires TypePolicy.TypeVerdict(pw, policy, required) == NoErr
    ensures TypePolicy.TypeVerdict(pw, policy', required') == NoErr
  {
    hide TypePolicy.Groups, TypePolicy.HitCount, TypePolicy.HasHighPair, PolicyGrowth.WithLast, PolicyGrowth.WithFirst,
         TypePolicy.IsSymbol;
    if g :| policy' == PolicyGrowth.WithLast(policy, g) {
      PolicyGrowth.LastGroupIsSafe(policy, g, pw);
    }
    if g :| TypePolicy.IsPlain(g) && !TypePolicy.IsSymbol(g[0]) && policy' == PolicyGrowth.WithFirst(g, policy) {
      PolicyGrowth.FirstGroupIsSafe(g, policy, pw);
    }
  }

  /** Relaxing the configuration never rejects a password that was accepted. (That the palindrome limit
      cannot be raised further for longer passwords is `RaisingIsSafeExactlyWhenShort`, and that no other
      group can be put in front `FirstGroupIsSafeIff`.) */
  lemma RelaxingKeepsAccepted(o: Options, o': Options, user: bytes, pw: bytes, isWord: bytes -> bool)
    requires Relaxed(o, o', |pw|) && Verdict(Some(o), user, pw, isWord) == NoErr
    ensures Verdict(Some(o'), user, pw, isWord) == NoErr
  {
    hide Palindromes.Caught, RunScanners.Monotone, RunScanners.HasSameRun, TypePolicy.TypeVerdict, PolicyRelaxed,
         FirstFrom;
    AcceptedIffNoComplaint(o, user, pw, isWord);
    AcceptedIffNoComplaint(o', user, pw, isWord);
    forall k | 0 <= k < CHECKS ensures Complaint(o', user, pw, isWord, k) == NoErr {
      assert Complaint(o, user, pw, isWord, k) == NoErr;
      if k == 4 && o'.enabled {
        RelaxedTypes(pw, o.characterType, o'.characterType, o.characterNumRequired, o'.characterNumRequired);
      }
      if 0 < o'.palindromeMinNum != o.palindromeMinNum && Palindromes.Caught(pw, o'.palindromeMinNum) {
        Palindromes.RaisedLimit(pw, o.palindromeMinNum, o'.palindromeMinNum);
      }
      if o'.monotoneCharacterNum > 0 {
        RunScanners.ScannersAreAntitone(pw, o.monotoneCharacterNum, o'.monotoneCharacterNum);
      }
      if o'.consecutiveSameCharacterNum > 0 {
        RunScanners.ScannersAreAntitone(pw, o.consecutiveSameCharacterNum, o'.consecutiveSameCharacterNum);
      }
    }
  }

  /** A configuration that checks the characters only. */
  function TypesOnly(policy: bytes, required: int): Options {
    Options(true, 0, 512, policy, required, 0, false, false, 0, 0)
  }

  lemma OnlyTypesMatter(policy: bytes, required: int, user: bytes, pw: bytes, isWord: bytes -> bool)
    requires 0 < |pw| <= 512
    ensures Verdict(Some(TypesOnly(policy, required)), user, pw, isWord)
         == TypePolicy.TypeVerdict(pw, policy, required)
  {
    hide TypePolicy.TypeVerdict, FirstFrom;
    var o := TypesOnly(policy, required);
    FirstIs(o, user, pw, isWord, 4);
    if TypePolicy.TypeVerdict(pw, policy, required) == NoErr {
      FirstIs(o, user, pw, isWord, CHECKS);
    }
  }

  lemma MarksAllow(g: bytes, i: nat)
    requires i < 3
    ensures "!$%"[i] in Concat(TypePolicy.Groups(PolicyGrowth.MARKS))
    ensures "!$%"[i] in Concat(TypePolicy.Groups(PolicyGrowth.WithFirst(g, PolicyGrowth.MARKS)))
  {
    PolicyGrowth.MarksAreMarks();
    assert "!$%"[i] in PolicyGrowth.MARKS && "!$%"[i] != ';';
    hide TypePolicy.Groups, PolicyGrowth.MARKS;
    TypePolicy.AllowedCharacters(PolicyGrowth.MARKS, "!$%"[i]);
    TypePolicy.AllowedCharacters(PolicyGrowth.WithFirst(g, PolicyGrowth.MARKS), "!$%"[i]);
  }

  /** Allowing a further group of symbols is no relaxation either when it is put in front: "!$%" is accepted
      under "!;@;#;$;%" with three groups required, and refused with any such group before them. */
  lemma FirstGroupCanReject(g: bytes, user: bytes, isWord: bytes -> bool)
    requires PolicyGrowth.IsMark(g)
    ensures Verdict(Some(TypesOnly(PolicyGrowth.MARKS, 3)), user, "!$%", isWord) == NoErr
    ensures Verdict(Some(TypesOnly(PolicyGrowth.WithFirst(g, PolicyGrowth.MARKS), 3)), user, "!$%", isWord)
         == CharacterTypeTooFew
  {
    hide TypePolicy.Groups, TypePolicy.HitCount, PolicyGrowth.MARKS, PolicyGrowth.WithFirst, Verdict;
    var pw: bytes := "!$%";
    PolicyGrowth.FirstGroupCanLose(g);
    OnlyTypesMatter(PolicyGrowth.MARKS, 3, user, pw, isWord);
    OnlyTypesMatter(PolicyGrowth.WithFirst(g, PolicyGrowth.MARKS), 3, user, pw, isWord);
    MarksAllow(g, 0);
    MarksAllow(g, 1);
    MarksAllow(g, 2);
  }

  /** Raising the palindrome limit is no relaxation: a password accepted with limit 1 is refused with
      limit 2, all else being equal. */
  lemma RaisingPalindromeLimitCanReject(user: bytes, isWord: bytes -> bool)
    ensures var o := Options(true, 0, 512, Classes.BUILT_IN, 0, 1, false, false, 0, 0);
            && Verdict(Some(o), user, "abcdeed", isWord) == NoErr
            && Verdict(Some(o.(palindromeMinNum := 2)), user, "abcdeed", isWord) == PwError.Palindrome
  {
    hide Palindromes.Caught, TypePolicy.TypeVerdict, FirstFrom;
    var pw: bytes := "abcdeed";
    var o := Options(true, 0, 512, Classes.BUILT_IN, 0, 1, false, false, 0, 0);
    var o' := o.(palindromeMinNum := 2);
    Palindromes.HigherLimitCatchesMore();
    Classes.BuiltInPolicyCountsClasses(pw, 0);
    FirstIs(o, user, pw, isWord, CHECKS);
    FirstIs(o', user, pw, isWord, 5);
  }

  lemma BuiltInIsPlain()
    ensures IsCString(Classes.BUILT_IN) && '\n' !in Classes.BUILT_IN
    ensures |Classes.BUILT_IN| == 98 && Classes.BUILT_IN[0] == '1'
  {
    AlphabetSizes();
    Classes.BuiltInAllows('\n');
    Classes.BuiltInAllows(NUL);
    hide TypePolicy.Groups, Concat;
    TypePolicy.GroupMembers(Classes.BUILT_IN, '\n');
    TypePolicy.GroupMembers(Classes.BUILT_IN, NUL);
  }

  /** A file that was written with the default policy gives the checker that policy. */
  lemma DefaultPolicyIsRead(c: PolicyFile.Conf)
    requires PolicyFile.IsStorable(c) && c.policy == Classes.BUILT_IN
    ensures PolicyFile.ReadPolicy(PolicyFile.Render(c)) == PolicyFile.Value(Classes.BUILT_IN)
  {
    BuiltInIsPlain();
    hide Classes.BUILT_IN, PolicyFile.ReadPolicy, PolicyFile.Render;
    PolicyRewrites.RoundTripIff(c);
  }

  /** The defaults of a server installation (tool/pwd_conf_update.c). */
  const SERVER := Options(true, 8, 510, Classes.BUILT_IN, 3, 4, true, false, 3, 3)

  lemma ServerAcceptsIff(user: bytes, pw: bytes, isWord: bytes -> bool)
    ensures Verdict(Some(SERVER), user, pw, isWord) == NoErr
       <==> && 8 <= |pw| <= 510 && user != pw && !isWord(pw)
            && TypePolicy.TypeVerdict(pw, Classes.BUILT_IN, 3) == NoErr && !Palindromes.Caught(pw, 4)
            && !RunScanners.Monotone(pw, 3) && !RunScanners.HasSameRun(pw, 3)
  {
    hide Palindromes.Caught, TypePolicy.TypeVerdict, FirstFrom, Classes.BUILT_IN, RunScanners.Monotone,
         RunScanners.HasSameRun;
    AcceptedIffNoComplaint(SERVER, user, pw, isWord);
    if Verdict(Some(SERVER), user, pw, isWord) == NoErr {
      assert Complaint(SERVER, user, pw, isWord, 1) == NoErr && Complaint(SERVER, user, pw, isWord, 3) == NoErr;
      assert Complaint(SERVER, user, pw, isWord, 4) == NoErr && Complaint(SERVER, user, pw, isWord, 5) == NoErr;
      assert Complaint(SERVER, user, pw, isWord, 6) == NoErr && Complaint(SERVER, user, pw, isWord, 7) == NoErr;
      assert Complaint(SERVER, user, pw, isWord, 8) == NoErr;
    }
  }

  /** What they promise about a password that is accepted. */
  lemma AcceptedOnServer(user: bytes, pw: bytes, isWord: bytes -> bool)
    requires Verdict(Some(SERVER), user, pw, isWord) == NoErr
    ensures 8 <= |pw| <= 510 && pw != user && !isWord(pw)
    ensures Classes.Printable(pw) && Classes.ClassCount(pw) >= 3
    ensures !exists i :: RunScanners.SameAt(pw, 3, i)
    ensures forall i :: 0 <= i <= |pw| - 3 ==> !RisesOrFalls(pw, i)
    ensures forall i, r, j :: !RunScanners.RightwardRun(pw, i, 3, r, j)
    ensures forall i, r, j :: RunScanners.LeftwardRun(pw, i, 3, r, j) ==> j == |RunScanners.Row(r)| - 1
    ensures forall i, r, j :: !RunScanners.LeftwardRun(pw, i, 4, r, j)
    ensures !Palindromes.Caught(pw, 4) && (|pw| <= 16 ==> !Palindromes.HasPalindrome(pw, 4))
  {
    hide Palindromes.Caught, TypePolicy.TypeVerdict, Verdict, Classes.BUILT_IN, Classes.Printable, Classes.ClassCount,
         RunScanners.Monotone, RunScanners.HasSameRun, Palindromes.HasPalindrome;
    ServerAcceptsIff(user, pw, isWord);
    Classes.BuiltInPolicyCountsClasses(pw, 3);
    Palindromes.CompleteWhenShort(pw, 4);
    RunScanners.SameRunIs(pw, 3);
    NotMonotone(pw);
  }

  lemma NotMonotone(pw: bytes)
    requires !RunScanners.Monotone(pw, 3)
    ensures forall i :: 0 <= i <= |pw| - 3 ==> !RisesOrFalls(pw, i)
    ensures forall i, r, j :: !RunScanners.RightwardRun(pw, i, 3, r, j)
    ensures forall i, r, j :: RunScanners.LeftwardRun(pw, i, 3, r, j) ==> j == |RunScanners.Row(r)| - 1
    ensures forall i, r, j :: !RunScanners.LeftwardRun(pw, i, 4, r, j)
  {
    hide RunScanners.Monotone, RunScanners.Row;
    forall i | 0 <= i <= |pw| - 3 ensures !RisesOrFalls(pw, i) {
      if RisesOrFalls(pw, i) {
        RunScanners.CodeRunsAreCaught(pw, i, 3, RunScanners.Code(pw[i + 1]) == RunScanners.Code(pw[i]) + 1);
      }
    }
    forall i, r, j ensures !RunScanners.RightwardRun(pw, i, 3, r, j) {
      if RunScanners.RightwardRun(pw, i, 3, r, j) {
        RunScanners.RightwardRunsAreCaught(pw, i, 3, r, j);
      }
    }
    forall i: nat, r: nat, j: nat | RunScanners.LeftwardRun(pw, i, 3, r, j) ensures j == |RunScanners.Row(r)| - 1 {
      if j < |RunScanners.Row(r)| - 1 {
        RunScanners.LeftwardCaught(pw, i, 3, r, j, 3);
      }
    }
    forall i, r, j ensures !RunScanners.LeftwardRun(pw, i, 4, r, j) {
      if RunScanners.LeftwardRun(pw, i, 4, r, j) {
        RunScanners.LeftwardCaught(pw, i, 4, r, j, 3);
      }
    }
  }

  /** Three codes in a row that go up by one, or down by one. */
  predicate RisesOrFalls(pw: bytes, i: nat)
    requires i + 3 <= |pw|
  {
    var a, b, c := RunScanners.Code(pw[i]), RunScanners.Code(pw[i + 1]), RunScanners.Code(pw[i + 2]);
    (b == a + 1 && c == b + 1) || (b == a - 1 && c == b - 1)
  }

  const GOOD: bytes := "aB!cD@eF"

  lemma GoodHasNoMoves()
    ensures forall i :: 0 <= i < 7 ==> RunScanners.CodeMoves(GOOD)[i] == RunScanners.Other
    ensures forall i :: 0 <= i < 7 ==> RunScanners.KeyMoves(GOOD)[i] == RunScanners.Other
    ensures forall i :: 0 <= i < 7 ==> RunScanners.SameMoves(GOOD)[i] == RunScanners.Other
  {
    hide RunScanners.KeysAt;
    RunScanners.KeysAtOnRow(GOOD, 0, 5, 0);
    RunScanners.KeysAtOnRow(GOOD, 1, 3, 4);
    RunScanners.KeysAtOnRow(GOOD, 2, 0, 0);
    RunScanners.KeysAtOnRow(GOOD, 3, 6, 2);
    RunScanners.KeysAtOnRow(GOOD, 4, 2, 2);
    RunScanners.KeysAtOnRow(GOOD, 5, 0, 1);
    RunScanners.KeysAtOnRow(GOOD, 6, 4, 2);
  }

  lemma GoodHasClasses()
    ensures Classes.Printable(GOOD) && Classes.ClassCount(GOOD) == 3
  {
    assert Classes.IsLower(GOOD[0]) && Classes.IsUpper(GOOD[1]) && Classes.IsOther(GOOD[2]);
  }

  lemma GoodIsNoPalindrome()
    ensures !Palindromes.Caught(GOOD, 4)
  {
    forall i, len ensures !Palindromes.MirrorAt(GOOD, 4, i, len) {
      if i == 0 && len == 8 {
        var s := GOOD[i..i + len];
        assert s[0] != s[7];
      }
    }
  }

  lemma GoodHasNoRuns()
    ensures !RunScanners.Monotone(GOOD, 3) && !RunScanners.HasSameRun(GOOD, 3)
  {
    GoodHasNoMoves();
    hide RunScanners.KeyMoves, RunScanners.CodeMoves, RunScanners.SameMoves, RunScanners.HasStretch;
    RunScanners.NoMovesNoStretch(RunScanners.CodeMoves(GOOD), 3);
    RunScanners.NoMovesNoStretch(RunScanners.KeyMoves(GOOD), 3);
    RunScanners.NoMovesNoStretch(RunScanners.SameMoves(GOOD), 3);
  }

  /** And there are such passwords. */
  lemma ServerAccepts(user: bytes, isWord: bytes -> bool)
    requires user != GOOD && !isWord(GOOD)
    ensures Verdict(Some(SERVER), user, GOOD, isWord) == NoErr
  {
    assert |GOOD| == 8;
    hide Palindromes.Caught, TypePolicy.TypeVerdict, Verdict, Classes.BUILT_IN, Classes.Printable, Classes.ClassCount,
         RunScanners.Monotone, RunScanners.HasSameRun, GOOD;
    GoodHasNoRuns();
    GoodHasClasses();
    GoodIsNoPalindrome();
    Classes.BuiltInPolicyCountsClasses(GOOD, 3);
    ServerAcceptsIff(user, GOOD, isWord);
  }
}
