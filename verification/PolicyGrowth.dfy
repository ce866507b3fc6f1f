/** What becomes of the groups of a policy when another group is added to it. */
module PolicyGrowth {
  import opened CBytes
  import opened TypePolicy

  // ---- one and two groups ----

  lemma OneGroup(q: bytes)
    requires IsPlain(q)
    ensures Groups(q) == [q]
  {
    hide Groups, GroupsFrom, DropAll, Before, AfterToken;
    OneToken(q);
    TokenThenNothing(q);
    EmptyHasNoGroups();
    GroupsFromAlone(q, []);
  }

  lemma TokenThenNothing(q: bytes)
    requires q != [] && DropAll(q, ';') == q && Before(q, ';') == q && AfterToken(q) == []
    ensures Groups(q) == GroupsFrom(q, [])
  {
    hide GroupsFrom, DropAll, Before, AfterToken;
  }

  /** Semicolons in front count for nothing. */
  lemma LeadingSemicolon(s: bytes)
    ensures Groups(";" + s) == Groups(s)
  {
    hide GroupsFrom, Before;
    assert (";" + s)[1..] == s;
  }

  lemma OnlySemicolons(s: bytes)
    requires forall i :: 0 <= i < |s| ==> s[i] == ';'
    ensures Groups(s) == [] && DropAll(s, ';') == []
  {
    hide DropAll;
    DropAllIs(s, ';', |s|);
    NoGroups(s);
  }

  /** A group with nothing but semicolons behind it is a group. */
  lemma LastGroup(p: bytes, s: bytes)
    requires IsPlain(p) && forall i :: 0 <= i < |s| ==> s[i] == ';'
    ensures Groups(p + ";" + s) == [p]
  {
    hide Groups, GroupsFrom, DropAll;
    OnlySemicolons(s);
    FirstToken(p, s);
    GroupsFromAlone(p, s);
  }

  /** Two groups are one when both begin with symbols, and the semicolon between them belongs to it; otherwise
      they are two. */
  lemma TwoGroups(p: bytes, q: bytes)
    requires IsPlain(p) && IsPlain(q)
    ensures Groups(p + ";" + q) == if IsSymbol(p[0]) && IsSymbol(q[0]) then [p + ";" + q] else [p, q]
  {
    hide Groups, GroupsFrom, DropAll, Before, AfterToken;
    if IsSymbol(p[0]) && IsSymbol(q[0]) {
      GluedGroup(p, q);
    } else {
      FirstToken(p, q);
      GroupsFromAlone(p, q);
      OneGroup(q);
    }
  }

  /** With two semicolons between them they are one already when the first begins with a symbol: the second
      semicolon is a symbol itself. */
  lemma TwoSemicolons(p: bytes, q: bytes)
    requires IsPlain(p) && IsPlain(q)
    ensures Groups(p + ";" + (";" + q)) == if IsSymbol(p[0]) then [p + ";" + q] else [p, q]
  {
    hide Groups, GroupsFrom, DropAll, Before, AfterToken, IsSymbol;
    var rest := ";" + q;
    FirstToken(p, rest);
    AfterSemicolon(q);
    SemicolonIsSymbol();
    if IsSymbol(p[0]) {
      GroupsFromGlued(p, rest);
      EmptyHasNoGroups();
    } else {
      GroupsFromAlone(p, rest);
      LeadingSemicolon(q);
      OneGroup(q);
    }
  }

  lemma AfterSemicolon(q: bytes)
    requires IsPlain(q)
    ensures DropAll(";" + q, ';') == q && Before(q, ';') == q && AfterToken(q) == []
  {
    hide Before, AfterToken;
    OneToken(q);
    assert (";" + q)[1..] == q;
  }

  lemma SemicolonIsSymbol()
    ensures IsSymbol(';')
  {
  }

  // ---- a group behind ----

  /** Group for group, `more` has the characters of `groups`. */
  predicate Covers(more: seq<bytes>, groups: seq<bytes>) {
    |groups| <= |more| && forall i :: 0 <= i < |groups| ==> Within(groups[i], more[i])
  }

  predicate Within(g: bytes, h: bytes) {
    forall c :: c in g ==> c in h
  }

  lemma CoversNext(g: bytes, groups: seq<bytes>, h: bytes, more: seq<bytes>)
    requires Within(g, h) && Covers(more, groups)
    ensures Covers([h] + more, [g] + groups)
  {
    hide Within;
  }

  lemma {:induction false} CoversKeeps(groups: seq<bytes>, more: seq<bytes>, pw: bytes)
    requires Covers(more, groups)
    ensures HitCount(groups, pw) <= HitCount(more, pw)
    ensures forall c :: c in Concat(groups) ==> c in Concat(more)
  {
    hide Within;
    if groups == [] {
    } else {
      assert Within(groups[0], more[0]);
      forall i | 0 <= i < |groups| - 1 ensures Within(groups[1..][i], more[1..][i]) {
        assert Within(groups[i + 1], more[i + 1]);
      }
      CoversKeeps(groups[1..], more[1..], pw);
      HitsMore(groups[0], more[0], pw);
    }
  }

  lemma HitsMore(g: bytes, h: bytes, pw: bytes)
    requires Within(g, h)
    ensures Hits(g, pw) ==> Hits(h, pw)
    ensures forall c :: c in g ==> c in h
  {
  }

  /** What a policy is when a group is added behind it. */
  function WithLast(s: bytes, g: bytes): bytes {
    s + (";" + g)
  }

  lemma DropOfWithLast(s: bytes, g: bytes)
    ensures DropAll(s, ';') != [] ==> DropAll(WithLast(s, g), ';') == WithLast(DropAll(s, ';'), g)
  {
    hide DropAll;
    if DropAll(s, ';') != [] {
      DropAllOfAppend(s, ";" + g, ';');
    }
  }

  /** The first token stays; what follows it is longer, or was nothing and is now g. */
  lemma TokenOfWithLast(t: bytes, g: bytes)
    ensures Before(WithLast(t, g), ';') == Before(t, ';')
    ensures AfterToken(WithLast(t, g)) == if |Before(t, ';')| == |t| then g else WithLast(AfterToken(t), g)
  {
    hide Before;
    var b, x := Before(t, ';'), ";" + g;
    BeforeOfAppend(t, x, ';');
    TailOfAppend(t, x, |b|);
    assert x[1..] == g;
  }

  lemma TailOfAppend(t: bytes, x: bytes, k: nat)
    requires k <= |t| && x != []
    ensures (t + x)[k + 1..] == if k == |t| then x[1..] else t[k + 1..] + x
  {
  }

  lemma {:induction false} GroupsOfWithLast(s: bytes, g: bytes)
    ensures Covers(Groups(WithLast(s, g)), Groups(s))
    decreases |s|, 0
  {
    var t := DropAll(s, ';');
    if t == [] {
    } else {
      hide DropAll, Before, WithLast, AfterToken, GroupsFrom;
      DropOfWithLast(s, g);
      TokenOfWithLast(t, g);
      var rest := AfterToken(t);
      if |Before(t, ';')| == |t| {
        NoRest(t);
        GroupsFromMore(Before(t, ';'), [], g);
      } else {
        AfterTokenIsShorter(t);
        GroupsFromOfWithLast(Before(t, ';'), rest, g);
      }
    }
  }

  lemma NoRest(t: bytes)
    requires |Before(t, ';')| == |t|
    ensures AfterToken(t) == []
  {
  }

  lemma AfterTokenIsShorter(t: bytes)
    requires |Before(t, ';')| < |t|
    ensures |AfterToken(t)| < |t|
  {
  }

  /** A token with nothing after it: whatever is put there, its group holds it. */
  lemma GroupsFromMore(p: bytes, rest: bytes, more: bytes)
    requires DropAll(rest, ';') == []
    ensures Covers(GroupsFrom(p, more), GroupsFrom(p, rest))
  {
    hide DropAll, Before;
    NoGroups(rest);
  }

  lemma {:induction false} GroupsFromOfWithLast(p: bytes, rest: bytes, g: bytes)
    ensures Covers(GroupsFrom(p, WithLast(rest, g)), GroupsFrom(p, rest))
    decreases |rest|, 1
  {
    hide Groups, GroupsFrom, DropAll, Before, WithLast, AfterToken, Glues;
    if DropAll(rest, ';') == [] {
      GroupsFromMore(p, rest, WithLast(rest, g));
    } else if Glues(p, rest) {
      var t := DropAll(rest, ';');
      var h := p + ";" + Before(t, ';');
      GluesWithLast(p, rest, g);
      GroupsFromGlued(p, rest);
      GroupsFromGlued(p, WithLast(rest, g));
      DropOfWithLast(rest, g);
      TokenOfWithLast(t, g);
      if |Before(t, ';')| == |t| {
        NoRest(t);
        EmptyHasNoGroups();
        CoversNext(h, [], h, Groups(g));
      } else {
        AfterTokenIsShorter(t);
        GroupsOfWithLast(AfterToken(t), g);
        CoversNext(h, Groups(AfterToken(t)), h, Groups(WithLast(AfterToken(t), g)));
      }
    } else {
      GluesWithLast(p, rest, g);
      GroupsFromAlone(p, rest);
      GroupsFromAlone(p, WithLast(rest, g));
      GroupsOfWithLast(rest, g);
      CoversNext(p, Groups(rest), p, Groups(WithLast(rest, g)));
    }
  }

  lemma GluesWithLast(p: bytes, rest: bytes, g: bytes)
    requires DropAll(rest, ';') != []
    ensures Glues(p, WithLast(rest, g)) <==> Glues(p, rest)
  {
    DropOfWithLast(rest, g);
  }

  /** A group that is added behind a policy never takes anything away. */
  lemma LastGroupIsSafe(s: bytes, g: bytes, pw: bytes)
    ensures HitCount(Groups(s), pw) <= HitCount(Groups(WithLast(s, g)), pw)
    ensures forall c :: c in Concat(Groups(s)) ==> c in Concat(Groups(WithLast(s, g)))
  {
    hide Groups, WithLast, Covers;
    GroupsOfWithLast(s, g);
    CoversKeeps(Groups(s), Groups(WithLast(s, g)), pw);
  }

  // ---- a group in front ----

  function WithFirst(g: bytes, s: bytes): bytes {
    g + ";" + s
  }

  /** A group in front that does not begin with a symbol never takes anything away. */
  lemma FirstGroupIsSafe(g: bytes, s: bytes, pw: bytes)
    requires IsPlain(g) && !IsSymbol(g[0])
    ensures HitCount(Groups(s), pw) <= HitCount(Groups(WithFirst(g, s)), pw)
    ensures forall c :: c in Concat(Groups(s)) ==> c in Concat(Groups(WithFirst(g, s)))
  {
    hide Groups, Hits;
    PlainGroup(g, s);
    Cons(g, Groups(s), pw);
  }

  /** A token that glues. */
  predicate IsMark(p: bytes) {
    IsPlain(p) && IsSymbol(p[0])
  }

  /** Two tokens that begin with symbols, at the front of a policy. */
  lemma GluedFirst(p: bytes, q: bytes, rest: bytes)
    requires IsMark(p) && IsMark(q)
    ensures Groups(p + ";" + (q + ";" + rest)) == [p + ";" + q] + Groups(rest)
  {
    hide Groups, GroupsFrom;
    var s := q + ";" + rest;
    FirstToken(p, s);
    assert s[0] == q[0] && q[0] in q;
    BeforeIs(s, ';', q);
    assert s[|q| + 1..] == rest;
    GroupsFromGlued(p, s);
  }

  function Glued(p: bytes, q: bytes): bytes {
    p + ";" + q
  }

  /** Five of them are three groups; with one more in front, they are paired anew. */
  lemma GroupsOfMarks(g: bytes, p: bytes, q: bytes, r: bytes, t: bytes, u: bytes)
    requires IsMark(g) && IsMark(p) && IsMark(q) && IsMark(r) && IsMark(t) && IsMark(u)
    ensures var s := WithFirst(p, WithFirst(q, WithFirst(r, WithFirst(t, u))));
            && Groups(s) == [Glued(p, q)] + ([Glued(r, t)] + ([u] + []))
            && Groups(WithFirst(g, s)) == [Glued(g, p)] + ([Glued(q, r)] + ([Glued(t, u)] + []))
  {
    hide Groups;
    GluedFirst(p, q, WithFirst(r, WithFirst(t, u)));
    GluedFirst(r, t, u);
    OneGroup(u);
    GluedFirst(g, p, WithFirst(q, WithFirst(r, WithFirst(t, u))));
    GluedFirst(q, r, WithFirst(t, u));
    GluedGroup(t, u);
    assert [u] + [] == [u] && [Glued(t, u)] + [] == [Glued(t, u)];
  }

  const MARKS: bytes := WithFirst("!", WithFirst("@", WithFirst("#", WithFirst("$", "%"))))

  lemma MarksAreMarks()
    ensures IsMark("!") && IsMark("@") && IsMark("#") && IsMark("$") && IsMark("%")
    ensures MARKS == "!;@;#;$;%"
  {
  }

  /** In front of "!;@;#;$;%" it makes the password "!$%" hit one group less. */
  lemma FirstGroupCanLose(g: bytes)
    requires IsMark(g)
    ensures HitCount(Groups(WithFirst(g, MARKS)), "!$%") < HitCount(Groups(MARKS), "!$%") == 3
  {
    MarksAreMarks();
    hide Groups, HitCount, IsMark, Hits, Glued;
    GroupsOfMarks(g, "!", "@", "#", "$", "%");
    ThreeHits(Glued("!", "@"), Glued("#", "$"), "%", "!$%");
    ThreeHits(Glued(g, "!"), Glued("@", "#"), Glued("$", "%"), "!$%");
    MarkHits();
  }

  lemma ThreeHits(g0: bytes, g1: bytes, g2: bytes, pw: bytes)
    ensures HitCount([g0] + ([g1] + ([g2] + [])), pw) == One(Hits(g0, pw)) + One(Hits(g1, pw)) + One(Hits(g2, pw))
  {
    hide Hits, HitCount;
    Cons(g0, [g1] + ([g2] + []), pw);
    Cons(g1, [g2] + [], pw);
    Cons(g2, [], pw);
    ConcatOfNothing(pw);
  }

  lemma MarkHits()
    ensures Hits(Glued("!", "@"), "!$%") && Hits(Glued("#", "$"), "!$%") && Hits("%", "!$%")
    ensures !Hits(Glued("@", "#"), "!$%")
  {
    var pw: bytes := "!$%";
    assert pw[0] in Glued("!", "@") && pw[1] in Glued("#", "$") && pw[2] in "%";
  }

  /** Putting one group in front of a policy takes no hit away from any password under any policy exactly
      when the group does not begin with a symbol. */
  lemma FirstGroupIsSafeIff(g: bytes)
    requires IsPlain(g)
    ensures (forall s: bytes, pw: bytes :: HitCount(Groups(s), pw) <= HitCount(Groups(WithFirst(g, s)), pw))
       <==> !IsSymbol(g[0])
  {
    hide Groups, HitCount, WithFirst;
    if IsSymbol(g[0]) {
      FirstGroupCanLose(g);
    } else {
      forall s: bytes, pw: bytes ensures HitCount(Groups(s), pw) <= HitCount(Groups(WithFirst(g, s)), pw) {
        FirstGroupIsSafe(g, s, pw);
      }
    }
  }
}
