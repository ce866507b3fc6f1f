/** The character policy of lib/deepin_pw_check.c: which characters, and how many groups of them. */
module TypePolicy {
  import opened CBytes
  import opened PwErrors

  // ---- two high bytes ----

  predicate IsHigh(c: byte) {
    c as int >= 128
  }

  ghost predicate HasHighPair(pw: bytes) {
    exists i :: 0 <= i < |pw| - 1 && IsHigh(pw[i]) && IsHigh(pw[i + 1])
  }

  method IncludeChinese(data: bytes) returns (r: bool)
    ensures r <==> HasHighPair(data)
  {
    var p := 0;
    while p < |data|
      invariant 0 <= p <= |data|
      invariant forall i :: 0 <= i < p && i < |data| - 1 ==> !(IsHigh(data[i]) && IsHigh(data[i + 1]))
    {
      var c := data[p];
      p := p + 1;
      if IsHigh(c) && p < |data| && IsHigh(data[p]) {
        assert IsHigh(data[p - 1]) && IsHigh(data[p - 1 + 1]);
        return true;
      }
    }
    return false;
  }

  // ---- the groups of a policy ----

  predicate IsSymbol(c: byte) {
    var k := c as int;
    33 <= k <= 47 || 58 <= k <= 64 || 91 <= k <= 96 || 123 <= k <= 126
  }

  /** The printable characters that are neither letters nor figures. */
  lemma SymbolIs(c: byte)
    ensures IsSymbol(c)
       <==> 33 <= c as int <= 126 && !('0' <= c <= '9') && !('A' <= c <= 'Z') && !('a' <= c <= 'z')
  {
  }

  /** What follows a token and the ';' that ends it. */
  function AfterToken(s: bytes): (r: bytes)
    ensures s != [] ==> |r| < |s|
  {
    if |Before(s, ';')| < |s| then s[|Before(s, ';')| + 1..] else []
  }

  /** The groups: the tokens between semicolons, except that a token that begins with a symbol takes
      the next token with it, with one ';' between, if a symbol (a further ';' included) comes right
      after its semicolon. */
  function Groups(s: bytes): seq<bytes>
    decreases |s|, 0
  {
    var t := DropAll(s, ';');
    if t == [] then [] else GroupsFrom(Before(t, ';'), AfterToken(t))
  }

  predicate Glues(p: bytes, rest: bytes) {
    p != [] && IsSymbol(p[0]) && rest != [] && IsSymbol(rest[0]) && DropAll(rest, ';') != []
  }

  function GroupsFrom(p: bytes, rest: bytes): seq<bytes>
    decreases |rest|, 1
  {
    if Glues(p, rest) then
      var t := DropAll(rest, ';');
      [p + ";" + Before(t, ';')] + Groups(AfterToken(t))
    else [p] + Groups(rest)
  }

  predicate Hits(group: bytes, pw: bytes) {
    exists i :: 0 <= i < |pw| && pw[i] in group
  }

  function HitCount(groups: seq<bytes>, pw: bytes): nat {
    if groups == [] then 0 else (if Hits(groups[0], pw) then 1 else 0) + HitCount(groups[1..], pw)
  }

  /** The verdict, from the groups alone. */
  ghost function TypeVerdict(pw: bytes, policy: bytes, required: int): PwError {
    if HasHighPair(pw) then CharacterInvalid
    else if exists i :: 0 <= i < |pw| && pw[i] !in Concat(Groups(policy)) then CharacterInvalid
    else if HitCount(Groups(policy), pw) < required then CharacterTypeTooFew
    else NoErr
  }

  // ---- what the groups contain ----

  lemma TokenParts(t: bytes)
    ensures t == if |Before(t, ';')| < |t| then Before(t, ';') + ";" + AfterToken(t) else Before(t, ';')
    ensures |Before(t, ';')| == |t| ==> AfterToken(t) == []
  {
  }

  lemma TokenMembers(t: bytes, c: byte)
    ensures c != ';' ==> (c in t <==> c in Before(t, ';') || c in AfterToken(t))
  {
    TokenParts(t);
  }

  lemma SkipMembers(s: bytes, c: byte)
    ensures c != ';' ==> (c in s <==> c in DropAll(s, ';'))
  {
    var t := DropAll(s, ';');
    assert s == s[..|s| - |t|] + t;
  }

  /** Apart from ';', the groups hold the characters of the policy. */
  lemma {:induction false} GroupMembers(s: bytes, c: byte)
    requires c != ';'
    ensures c in Concat(Groups(s)) <==> c in s
    decreases |s|, 0
  {
    var t := DropAll(s, ';');
    SkipMembers(s, c);
    if t == [] {
    } else {
      TokenMembers(t, c);
      GroupFromMembers(Before(t, ';'), AfterToken(t), c);
    }
  }

  lemma {:induction false} GroupFromMembers(p: bytes, rest: bytes, c: byte)
    requires c != ';'
    ensures c in Concat(GroupsFrom(p, rest)) <==> c in p || c in rest
    decreases |rest|, 1
  {
    if Glues(p, rest) {
      var t := DropAll(rest, ';');
      SkipMembers(rest, c);
      TokenMembers(t, c);
      GroupMembers(AfterToken(t), c);
      assert GroupsFrom(p, rest)[1..] == Groups(AfterToken(t));
    } else {
      GroupMembers(rest, c);
      assert GroupsFrom(p, rest)[1..] == Groups(rest);
    }
  }

  /** The groups together are no longer than the policy. */
  lemma {:induction false} GroupsFit(s: bytes)
    ensures |Concat(Groups(s))| <= |s|
    decreases |s|, 0
  {
    var t := DropAll(s, ';');
    if t == [] {
    } else {
      TokenParts(t);
      GroupsFromFit(Before(t, ';'), AfterToken(t));
    }
  }

  lemma {:induction false} GroupsFromFit(p: bytes, rest: bytes)
    ensures |Concat(GroupsFrom(p, rest))| <= |p| + if rest == [] then 0 else 1 + |rest|
    decreases |rest|, 1
  {
    if Glues(p, rest) {
      var t := DropAll(rest, ';');
      TokenParts(t);
      GroupsFit(AfterToken(t));
      assert GroupsFrom(p, rest)[1..] == Groups(AfterToken(t));
    } else {
      GroupsFit(rest);
      assert GroupsFrom(p, rest)[1..] == Groups(rest);
    }
  }

  /** The tokens without any glueing. */
  function Tokens(s: bytes): seq<bytes>
    decreases |s|
  {
    var t := DropAll(s, ';');
    if t == [] then [] else [Before(t, ';')] + Tokens(AfterToken(t))
  }

  /** A ';' is allowed exactly when two tokens were glued, that is, when there are fewer groups than
      tokens. */
  lemma {:induction false} SemicolonIffGlued(s: bytes)
    ensures |Groups(s)| <= |Tokens(s)|
    ensures ';' in Concat(Groups(s)) <==> |Groups(s)| < |Tokens(s)|
    decreases |s|, 0
  {
    var t := DropAll(s, ';');
    if t == [] {
    } else {
      SemicolonFromGlued(Before(t, ';'), AfterToken(t));
    }
  }

  lemma {:induction false} SemicolonFromGlued(p: bytes, rest: bytes)
    requires ';' !in p
    ensures |GroupsFrom(p, rest)| <= 1 + |Tokens(rest)|
    ensures ';' in Concat(GroupsFrom(p, rest)) <==> |GroupsFrom(p, rest)| < 1 + |Tokens(rest)|
    decreases |rest|, 1
  {
    if Glues(p, rest) {
      var t := DropAll(rest, ';');
      SemicolonIffGlued(AfterToken(t));
      assert ";"[0] in GroupsFrom(p, rest)[0];
      assert GroupsFrom(p, rest)[1..] == Groups(AfterToken(t));
    } else {
      SemicolonIffGlued(rest);
      assert GroupsFrom(p, rest)[1..] == Groups(rest);
    }
  }

  /** The allowed characters: those of the policy except ';', and ';' exactly when a glueing happened. */
  lemma AllowedCharacters(policy: bytes, c: byte)
    ensures c in Concat(Groups(policy)) <==> if c == ';' then |Groups(policy)| < |Tokens(policy)| else c in policy
  {
    if c == ';' {
      SemicolonIffGlued(policy);
    } else {
      GroupMembers(policy, c);
    }
  }

  /** A nonempty list of characters without ';'. */
  predicate IsPlain(token: bytes) {
    token != [] && ';' !in token
  }

  /** A policy that begins with a token, a semicolon and a rest. */
  lemma FirstToken(token: bytes, rest: bytes)
    requires IsPlain(token)
    ensures Groups(token + ";" + rest) == GroupsFrom(token, rest)
  {
    hide GroupsFrom;
    var s := token + ";" + rest;
    assert s[0] == token[0] != ';';
    BeforeIs(s, ';', token);
    assert s[..|token|] == token && s[|token| + 1..] == rest;
  }

  lemma PlainGroup(token: bytes, rest: bytes)
    requires IsPlain(token) && !IsSymbol(token[0])
    ensures Groups(token + ";" + rest) == [token] + Groups(rest)
  {
    hide Groups;
    FirstToken(token, rest);
    GroupsFromAlone(token, rest);
  }

  lemma GroupsFromGlued(p: bytes, rest: bytes)
    requires Glues(p, rest)
    ensures var t := DropAll(rest, ';');
            GroupsFrom(p, rest) == [p + ";" + Before(t, ';')] + Groups(AfterToken(t))
  {
  }

  lemma GroupsFromAlone(p: bytes, rest: bytes)
    requires !Glues(p, rest)
    ensures GroupsFrom(p, rest) == [p] + Groups(rest)
  {
  }

  lemma OneToken(q: bytes)
    requires IsPlain(q)
    ensures DropAll(q, ';') == q && Before(q, ';') == q && AfterToken(q) == []
  {
    assert q[0] in q;
    BeforeIs(q, ';', q);
    assert q[..|q|] == q;
  }

  lemma GluedGroup(p: bytes, q: bytes)
    requires IsPlain(p) && IsPlain(q) && IsSymbol(p[0]) && IsSymbol(q[0])
    ensures Groups(p + ";" + q) == [p + ";" + q]
  {
    hide Groups, GroupsFrom, Before, DropAll, AfterToken;
    FirstToken(p, q);
    OneToken(q);
    GroupsFromGlued(p, q);
    EmptyHasNoGroups();
  }

  lemma EmptyHasNoGroups()
    ensures Groups([]) == []
  {
  }

  function One(b: bool): nat { if b then 1 else 0 }

  lemma Cons(g: bytes, groups: seq<bytes>, pw: bytes)
    ensures HitCount([g] + groups, pw) == One(Hits(g, pw)) + HitCount(groups, pw)
    ensures Concat([g] + groups) == g + Concat(groups)
  {
    hide Hits;
    assert ([g] + groups)[1..] == groups;
  }

  lemma {:induction false} HitCountOfSet(groups: seq<bytes>, pw: bytes, pw': bytes)
    requires forall c :: c in pw <==> c in pw'
    ensures HitCount(groups, pw) == HitCount(groups, pw')
  {
    if groups == [] {
    } else {
      HitCountOfSet(groups[1..], pw, pw');
      assert Hits(groups[0], pw) <==> exists c :: c in pw && c in groups[0];
      assert Hits(groups[0], pw') <==> exists c :: c in pw' && c in groups[0];
    }
  }

  /** Apart from the test for two high bytes, only the set of characters of a password matters. */
  lemma VerdictOfSet(pw: bytes, pw': bytes, policy: bytes, required: int)
    requires forall c :: c in pw <==> c in pw'
    requires HasHighPair(pw) <==> HasHighPair(pw')
    ensures TypeVerdict(pw, policy, required) == TypeVerdict(pw', policy, required)
  {
    HitCountOfSet(Groups(policy), pw, pw');
    assert forall i :: 0 <= i < |pw| ==> pw[i] in pw';
    assert forall i :: 0 <= i < |pw'| ==> pw'[i] in pw;
  }

  // ---- strtok, in place ----

  /** From `save` on the buffer still holds the policy; before it, semicolons have become terminators. */
  ghost predicate Tokenising(buf: array<byte>, policy: bytes, save: nat)
    reads buf
  {
    && IsCString(policy) && buf.Length == |policy| + 1 && save <= |policy| && buf[|policy|] == NUL
    && forall k :: save <= k < |policy| ==> buf[k] == policy[k]
  }

  lemma NoNulAt(s: bytes, i: nat)
    requires IsCString(s)
    ensures i < |s| ==> s[i] != NUL
  {
  }

  method SkipFrom(buf: array<byte>, save: nat, ghost policy: bytes) returns (p: nat)
    requires Tokenising(buf, policy, save)
    ensures save <= p <= |policy| && policy[p..] == DropAll(policy[save..], ';')
    ensures buf[p] == NUL <==> p == |policy|
  {
    hide DropAll, IsCString;
    p := save;
    while buf[p] == ';'
      invariant save <= p <= |policy| && forall k :: save <= k < p ==> policy[k] == ';'
      decreases |policy| - p
    {
      p := p + 1;
    }
    NoNulAt(policy, p);
    DropAllIs(policy[save..], ';', p - save);
    assert policy[save..][p - save..] == policy[p..];
  }

  method TokenEnd(buf: array<byte>, p: nat, ghost policy: bytes) returns (end: nat)
    requires Tokenising(buf, policy, p)
    ensures p <= end <= |policy| && policy[p..end] == Before(policy[p..], ';')
    ensures end < |policy| ==> policy[end] == ';'
  {
    hide Before;
    end := p;
    while buf[end] != NUL && buf[end] != ';'
      invariant p <= end <= |policy| && forall k :: p <= k < end ==> policy[k] != ';'
      decreases |policy| - end
    {
      end := end + 1;
    }
    assert end < |policy| ==> policy[end] in policy;
    BeforeIs(policy[p..], ';', policy[p..end]);
    assert policy[p..][..end - p] == policy[p..end];
  }

  /** One call of strtok: -1 for NULL, else where the next token starts. */
  method StrTok(buf: array<byte>, save: nat, ghost policy: bytes) returns (p: int, next: nat)
    requires Tokenising(buf, policy, save)
    modifies buf
    ensures Tokenising(buf, policy, next) && save <= next
    ensures forall k :: 0 <= k < save ==> buf[k] == old(buf[k])
    ensures p == -1 <==> DropAll(policy[save..], ';') == []
    ensures p == -1 ==> next == |policy|
    ensures p != -1 ==> var t := DropAll(policy[save..], ';');
                        && save <= p < next && CStr(buf[p..]) == Before(t, ';') && policy[next..] == AfterToken(t)
                        && (next == p + |Before(t, ';')| + 1 || (next == |policy| == p + |Before(t, ';')|))
  {
    hide CStr, DropAll, Before;
    p := SkipFrom(buf, save, policy);
    if buf[p] == NUL {
      return -1, p;
    }
    ghost var t := policy[p..];
    var end := TokenEnd(buf, p, policy);
    ghost var token := policy[p..end];
    if buf[end] == ';' {
      buf[end] := NUL;
      next := end + 1;
    } else {
      next := end;
    }
    SliceIsCString(policy, p, end);
    assert buf[p..][..|token|] == token;
    CStrIs(buf[p..], token);
    assert AfterToken(t) == policy[next..];
  }

  const BUFF_SIZE := 512

  /** A token starts at p, and `save` is behind its terminator or at the end of the policy. */
  ghost predicate TokenAt(buf: array<byte>, p: int, policy: bytes, save: nat)
    reads buf
  {
    && 0 <= p < save <= buf.Length && CStr(buf[p..]) != []
    && (save == p + |CStr(buf[p..])| + 1 || save == |policy| == p + |CStr(buf[p..])|)
  }

  /** strtok, and which groups are still to come. */
  method NextToken(buf: array<byte>, save: nat, ghost policy: bytes) returns (p: int, next: nat)
    requires Tokenising(buf, policy, save)
    modifies buf
    ensures Tokenising(buf, policy, next) && save <= next <= |policy| && -1 <= p < buf.Length
    ensures p == -1 ==> Groups(policy[save..]) == []
    ensures p != -1 ==> save < next && TokenAt(buf, p, policy, next)
    ensures p != -1 ==> Groups(policy[save..]) == GroupsFrom(CStr(buf[p..]), policy[next..])
  {
    hide CStr, GroupsFrom;
    p, next := StrTok(buf, save, policy);
  }

  /** Takes the next token, if there is one, into a buffer of its own behind the one at hand. */
  method GlueNext(buf: array<byte>, token: bytes, save: nat, ghost policy: bytes) returns (group: bytes, next: nat)
    requires Tokenising(buf, policy, save) && IsCString(token) && |token| + |policy| - save < BUFF_SIZE - 1
    requires token != [] && IsSymbol(token[0]) && save < |policy| && IsSymbol(policy[save])
    modifies buf
    ensures Tokenising(buf, policy, next) && save <= next <= |policy| && IsCString(group)
    ensures GroupsFrom(token, policy[save..]) == [group] + Groups(policy[next..])
  {
    hide CStr, GroupsFrom, Groups, DropAll, Before;
    ghost var rest := policy[save..];
    ghost var t := DropAll(rest, ';');
    var q, after := StrTok(buf, save, policy);
    group, next := token, after;
    if q != -1 {
      var tmp := new byte[BUFF_SIZE](_ => NUL);
      Put(tmp, token);
      Append(tmp, ";");
      Append(tmp, CStr(buf[q..]));
      group := CStr(tmp[..]);
      GroupsFromGlued(token, rest);
    } else {
      GroupsFromAlone(token, rest);
      NoGroups(rest);
      NoGroups(policy[next..]);
    }
  }

  /** The token at p, glued to the next one when that begins with a symbol too. */
  method LoadGroup(buf: array<byte>, p: nat, save: nat, ghost policy: bytes, length: nat)
    returns (group: bytes, next: nat)
    requires Tokenising(buf, policy, save) && length == |policy| < BUFF_SIZE
    requires TokenAt(buf, p, policy, save)
    modifies buf
    ensures Tokenising(buf, policy, next) && save <= next <= |policy| && IsCString(group)
    ensures GroupsFrom(old(CStr(buf[p..])), policy[save..]) == [group] + Groups(policy[next..])
  {
    hide CStr, GroupsFrom, Groups, DropAll, Before;
    var token := CStr(buf[p..]);
    group, next := token, save;
    if IsSymbol(token[0]) {
      var nextData := p + |token| + 1;
      if nextData < length && IsSymbol(buf[nextData]) {
        group, next := GlueNext(buf, token, save, policy);
        return;
      }
    }
    assert !Glues(token, policy[save..]);
    GroupsFromAlone(token, policy[save..]);
  }

  lemma NoGroups(s: bytes)
    requires DropAll(s, ';') == []
    ensures Groups(s) == []
  {
  }

  /** Does some character of the password occur in the group? */
  method HasCharacterOf(pw: bytes, group: bytes) returns (ok: bool)
    ensures ok <==> Hits(group, pw)
  {
    ok := false;
    var i := 0;
    while i < |pw|
      invariant 0 <= i <= |pw|
      invariant ok ==> Hits(group, pw)
      invariant !ok ==> forall k :: 0 <= k < i ==> pw[k] !in group
    {
      if ok {
        break;
      }
      var j := 0;
      while j < |group|
        invariant 0 <= j <= |group| && pw[i] !in group[..j]
      {
        if pw[i] == group[j] {
          ok := true;
          break;
        }
        j := j + 1;
      }
      i := i + 1;
    }
  }

  /** Is every character of the password among the expected ones? */
  method AllExpected(pw: bytes, expected: bytes) returns (r: bool)
    ensures r <==> forall i :: 0 <= i < |pw| ==> pw[i] in expected
  {
    var i := 0;
    while i < |pw|
      invariant 0 <= i <= |pw| && forall k :: 0 <= k < i ==> pw[k] in expected
    {
      var find := false;
      var j := 0;
      while j < |expected|
        invariant 0 <= j <= |expected| && (find <==> pw[i] in expected[..j])
      {
        if pw[i] == expected[j] {
          find := true;
        }
        j := j + 1;
      }
      if !find {
        return false;
      }
      i := i + 1;
    }
    return true;
  }

  lemma {:induction false} HitCountAppend(a: seq<bytes>, g: bytes, pw: bytes)
    ensures HitCount(a + [g], pw) == HitCount(a, pw) + if Hits(g, pw) then 1 else 0
  {
    if a == [] {
      assert a + [g] == [g];
    } else {
      assert (a + [g])[1..] == a[1..] + [g];
      HitCountAppend(a[1..], g, pw);
    }
  }

  lemma NextGroupFits(policy: bytes, done: seq<bytes>, g: bytes, more: seq<bytes>)
    requires Groups(policy) == done + ([g] + more)
    ensures |Concat(done)| + |g| <= |policy|
    ensures Concat(done + [g]) == Concat(done) + g
  {
    GroupsFit(policy);
    ConcatAppend(done, [g] + more);
    ConcatAppend([g], more);
    ConcatAppend(done, [g]);
    ConcatOne(g);
  }

  /** The loop over the groups: what may occur, and how many of the groups do. */
  method CollectGroups(pw: bytes, policy: bytes, all: array<byte>) returns (pass: int)
    requires IsCString(policy) && |policy| < BUFF_SIZE
    requires all.Length == BUFF_SIZE && CStr(all[..]) == []
    modifies all
    ensures CStr(all[..]) == Concat(Groups(policy)) && pass == HitCount(Groups(policy), pw)
  {
    hide CStr, Groups, GroupsFrom, Concat, HitCount, Hits, Tokenising, TokenAt;
    var buf := Copied(policy);
    assert policy[0..] == policy;
    var p, save := NextToken(buf, 0, policy);
    pass := 0;
    ghost var done: seq<bytes> := [];
    ConcatOfNothing(pw);
    while p != -1
      invariant -1 <= p < buf.Length && Tokenising(buf, policy, save) && save <= |policy|
      invariant p != -1 ==> TokenAt(buf, p, policy, save)
      invariant p == -1 ==> Groups(policy) == done
      invariant p != -1 ==> Groups(policy) == done + GroupsFrom(CStr(buf[p..]), policy[save..])
      invariant CStr(all[..]) == Concat(done) && pass == HitCount(done, pw)
      decreases if p == -1 then 0 else 1 + |policy| - save
    {
      var group, after := LoadGroup(buf, p, save, policy, |policy|);
      ghost var more := Groups(policy[after..]);
      NextGroupFits(policy, done, group, more);
      Append(all, group);
      HitCountAppend(done, group, pw);
      var ok := HasCharacterOf(pw, group);
      if ok {
        pass := pass + 1;
      }
      p, save := NextToken(buf, after, policy);
      done := done + [group];
    }
  }

  /** `strcpy(character_type_tmp, character_type)`. */
  method Copied(policy: bytes) returns (buf: array<byte>)
    requires IsCString(policy)
    ensures fresh(buf) && Tokenising(buf, policy, 0)
  {
    buf := new byte[|policy| + 1];
    CopyInto(buf, 0, policy + [NUL]);
    assert buf[..] == policy + [NUL];
    assert forall k :: 0 <= k < |policy| ==> buf[..][k] == policy[k];
    assert buf[..][|policy|] == NUL;
  }

  lemma ConcatOfNothing(pw: bytes)
    ensures Concat([]) == [] && HitCount([], pw) == 0
  {
  }

  /** The whole check of the characters of a password. */
  method IsTypeValid(pw: bytes, policy: bytes, required: int) returns (r: PwError)
    requires IsCString(policy) && |policy| < BUFF_SIZE
    ensures r == TypeVerdict(pw, policy, required)
  {
    hide CStr, Groups, Concat, HitCount, HasHighPair;
    var chinese := IncludeChinese(pw);
    if chinese {
      return CharacterInvalid;
    }
    var all := new byte[BUFF_SIZE](_ => NUL);
    CStrIs(all[..], []);
    var pass := CollectGroups(pw, policy, all);
    var expected := AllExpected(pw, CStr(all[..]));
    if !expected {
      return CharacterInvalid;
    }
    if pass < required {
      return CharacterTypeTooFew;
    }
    return NoErr;
  }
}
