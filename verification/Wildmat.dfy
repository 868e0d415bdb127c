// Shell wildcard matching without recursion: only the most recent '*' is remembered.
module Wildmat {

  // A C string: bytes, no NUL inside.
  predicate IsCString(s: string) {
    forall i :: 0 <= i < |s| ==> 0 < s[i] as int < 256
  }

  type CString = s: string | IsCString(s) witness ""

  // The value of a (signed) C char.
  function Value(c: char): int {
    if c as int < 128 then c as int else c as int - 256
  }

  // Reading position i, the terminating NUL included.
  function At(s: CString, i: nat): int
    requires i <= |s|
  {
    if i < |s| then Value(s[i]) else 0
  }

  function Upper(c: int): int {
    if 'a' as int <= c <= 'z' as int then c - 32 else c
  }

  predicate CharEq(c1: int, c2: int, ic: bool) {
    if ic then Upper(c1) == Upper(c2) else c1 == c2
  }

  predicate CharRange(c: int, c1: int, c2: int, ic: bool) {
    if ic then Upper(c1) <= Upper(c) <= Upper(c2) else c1 <= c <= c2
  }

  // ---- patterns ----

  datatype Item = One(c: char) | Range(low: int, high: char)

  datatype Token =
    | Star
    | Any
    | Lit(c: char)
    | Class(reverse: bool, items: seq<Item>)

  // Before the first item of a class there is no character to start a range from.
  const NONE := 256

  // The items of a class from position i on, and the place of the closing bracket.
  // `last` is the character a '-' would take as the low end.
  datatype Items = Unclosed | Items(items: seq<Item>, close: nat)

  function ParseItems(p: CString, i: nat, last: int): (r: Items)
    requires i <= |p|
    ensures r.Items? ==> i <= r.close < |p| && p[r.close] == ']'
    decreases |p| - i
  {
    if i == |p| then Unclosed
    else if p[i] == ']' then Items([], i)
    else if p[i] == '-' then
      if i + 1 == |p| then Unclosed
      else match ParseItems(p, i + 2, Value(p[i + 1]))
        case Unclosed => Unclosed
        case Items(items, close) => Items([Range(last, p[i + 1])] + items, close)
    else match ParseItems(p, i + 1, Value(p[i]))
      case Unclosed => Unclosed
      case Items(items, close) => Items([One(p[i])] + items, close)
  }

  // One token starting at i, and where the next one starts.
  datatype Lexed = Malformed | Lexed(token: Token, next: nat)

  function Lex(p: CString, i: nat): (r: Lexed)
    requires i < |p|
    ensures r.Lexed? ==> i < r.next <= |p|
  {
    if p[i] == '\\' then
      if i + 1 < |p| then Lexed(Lit(p[i + 1]), i + 2) else Malformed
    else if p[i] == '?' then Lexed(Any, i + 1)
    else if p[i] == '*' then Lexed(Star, i + 1)
    else if p[i] == '[' then
      var reverse := i + 1 < |p| && p[i + 1] == '^';
      match ParseItems(p, if reverse then i + 2 else i + 1, NONE)
      case Unclosed => Malformed
      case Items(items, close) => Lexed(Class(reverse, items), close + 1)
    else Lexed(Lit(p[i]), i + 1)
  }

  // Closed brackets and no backslash at the end.
  predicate WellFormed(p: CString, i: nat)
    requires i <= |p|
    decreases |p| - i
  {
    i == |p| || (Lex(p, i).Lexed? && WellFormed(p, Lex(p, i).next))
  }

  function Tokens(p: CString, i: nat): seq<Token>
    requires i <= |p| && WellFormed(p, i)
    decreases |p| - i
  {
    if i == |p| then [] else [Lex(p, i).token] + Tokens(p, Lex(p, i).next)
  }

  // ---- meaning ----

  predicate ItemHits(item: Item, c: int, ic: bool) {
    match item
    case One(d) => CharEq(c, Value(d), ic)
    case Range(low, high) => CharRange(c, low, Value(high), ic)
  }

  // Does a token other than Star accept this character? (NUL asked of a class is the
  // question the code asks at the end of the subject.)
  predicate Hits(t: Token, c: int, ic: bool) {
    match t
    case Star => false
    case Any => c != 0
    case Lit(d) => CharEq(c, Value(d), ic)
    case Class(reverse, items) => (exists k :: 0 <= k < |items| && ItemHits(items[k], c, ic)) != reverse
  }

  // The declarative meaning: a star stands for any stretch at all.
  ghost predicate Matches(ts: seq<Token>, s: string, ic: bool)
    decreases |ts|
  {
    if ts == [] then s == ""
    else if ts[0].Star? then exists k :: 0 <= k <= |s| && Matches(ts[1..], s[k..], ic)
    else s != "" && Hits(ts[0], Value(s[0]), ic) && Matches(ts[1..], s[1..], ic)
  }

  // Tokens that each take exactly one character.
  predicate Singles(ts: seq<Token>) {
    forall k :: 0 <= k < |ts| ==> !ts[k].Star?
  }

  lemma {:induction false} SinglesTakeOneEach(pre: seq<Token>, ts: seq<Token>, s: string, ic: bool)
    requires Singles(pre) && Matches(pre + ts, s, ic)
    ensures |pre| <= |s| && Matches(ts, s[|pre|..], ic)
    ensures forall k :: 0 <= k < |pre| ==> Hits(pre[k], Value(s[k]), ic)
  {
    if pre == [] {
      assert pre + ts == ts && s[0..] == s;
    } else {
      assert (pre + ts)[1..] == pre[1..] + ts;
      SinglesTakeOneEach(pre[1..], ts, s[1..], ic);
      assert s[1..][|pre| - 1..] == s[|pre|..];
      assert forall k :: 1 <= k < |pre| ==> pre[k] == pre[1..][k - 1] && s[k] == s[1..][k - 1];
    }
  }

  lemma {:induction false} SinglesJoin(pre: seq<Token>, ts: seq<Token>, s: string, ic: bool)
    requires Singles(pre) && |pre| <= |s| && Matches(ts, s[|pre|..], ic)
    requires forall k :: 0 <= k < |pre| ==> Hits(pre[k], Value(s[k]), ic)
    ensures Matches(pre + ts, s, ic)
  {
    hide Matches, Hits;
    if pre == [] {
      assert pre + ts == ts && s[0..] == s;
    } else {
      assert s[1..][|pre| - 1..] == s[|pre|..];
      assert forall k :: 0 <= k < |pre| - 1 ==> pre[1..][k] == pre[k + 1] && s[1..][k] == s[k + 1];
      SinglesJoin(pre[1..], ts, s[1..], ic);
      assert (pre + ts)[1..] == pre[1..] + ts;
      FirstMatches(pre + ts, s, ic);
    }
  }

  lemma FirstMatches(ts: seq<Token>, s: string, ic: bool)
    requires ts != [] && !ts[0].Star? && s != "" && Hits(ts[0], Value(s[0]), ic) && Matches(ts[1..], s[1..], ic)
    ensures Matches(ts, s, ic)
  {
    hide Hits;
  }

  // Somewhere from position j on, the tokens match the rest of the subject.
  ghost predicate MatchesFrom(ts: seq<Token>, s: string, j: nat, ic: bool) {
    exists k :: j <= k <= |s| && Matches(ts, s[k..], ic)
  }

  // The tokens in `pre` have taken s[from..to] one character each.
  ghost predicate Took(pre: seq<Token>, s: string, from: nat, to: nat, ic: bool) {
    && from <= to <= |s| && |pre| == to - from && Singles(pre)
    && forall k :: 0 <= k < |pre| ==> Hits(pre[k], Value(s[from + k]), ic)
  }

  // A star replaces everything remembered before it: the segment in between takes one
  // character per token, so matching it earliest leaves the star the most room.
  lemma StarForgets(pre: seq<Token>, rest: seq<Token>, s: string, from: nat, to: nat, ic: bool)
    requires Took(pre, s, from, to, ic)
    ensures Matches(pre + [Star] + rest, s[from..], ic) ==> MatchesFrom(rest, s, to, ic)
    ensures MatchesFrom(rest, s, to, ic) ==> Matches(pre + [Star] + rest, s[from..], ic)
    ensures MatchesFrom(pre + [Star] + rest, s, from, ic) <==> MatchesFrom(rest, s, to, ic)
  {
    var ts := pre + ([Star] + rest);
    assert pre + [Star] + rest == ts;
    forall j | from <= j <= |s| && Matches(ts, s[j..], ic)
      ensures MatchesFrom(rest, s, to, ic)
    {
      SinglesTakeOneEach(pre, [Star] + rest, s[j..], ic);
      var u := s[j..][|pre|..];
      assert u == s[j + |pre|..];
      assert ([Star] + rest)[1..] == rest;
      var k :| 0 <= k <= |u| && Matches(rest, u[k..], ic);
      assert u[k..] == s[j + |pre| + k..];
    }
    if MatchesFrom(rest, s, to, ic) {
      var k :| to <= k <= |s| && Matches(rest, s[k..], ic);
      assert s[to..][k - to..] == s[k..];
      assert ([Star] + rest)[1..] == rest;
      assert Matches([Star] + rest, s[to..], ic);
      assert s[from..][|pre|..] == s[to..];
      SinglesJoin(pre, [Star] + rest, s[from..], ic);
    }
  }

  // A token that refuses the character under it spoils this starting place.
  lemma RefusedHere(pre: seq<Token>, t: Token, rest: seq<Token>, s: string, from: nat, to: nat, ic: bool)
    requires Took(pre, s, from, to, ic) && !t.Star?
    requires to == |s| || !Hits(t, Value(s[to]), ic)
    ensures !Matches(pre + [t] + rest, s[from..], ic)
  {
    assert pre + [t] + rest == pre + ([t] + rest);
    assert s[from..][|pre|..] == s[to..];
    if Matches(pre + ([t] + rest), s[from..], ic) {
      SinglesTakeOneEach(pre, [t] + rest, s[from..], ic);
    }
  }

  // So does a pattern that ends before the subject does.
  lemma EndsEarly(pre: seq<Token>, s: string, from: nat, to: nat, ic: bool)
    requires Took(pre, s, from, to, ic) && to < |s|
    ensures !Matches(pre, s[from..], ic)
  {
    assert pre + [] == pre && s[from..][|pre|..] == s[to..];
    if Matches(pre, s[from..], ic) {
      SinglesTakeOneEach(pre, [], s[from..], ic);
    }
  }

  // A token that needs a character where none is left spoils every later starting place
  // too: later places leave even fewer characters.
  lemma NoneLeft(pre: seq<Token>, t: Token, rest: seq<Token>, s: string, from: nat, ic: bool)
    requires Took(pre, s, from, |s|, ic) && !t.Star?
    ensures !MatchesFrom(pre + [t] + rest, s, from, ic)
  {
    assert pre + [t] + rest == (pre + [t]) + rest;
    forall j | from <= j <= |s|
      ensures !Matches(pre + [t] + rest, s[j..], ic)
    {
      if Matches((pre + [t]) + rest, s[j..], ic) {
        SinglesTakeOneEach(pre + [t], rest, s[j..], ic);
      }
    }
  }

  lemma NextStart(ts: seq<Token>, s: string, j: nat, ic: bool)
    requires j < |s| && !Matches(ts, s[j..], ic)
    ensures MatchesFrom(ts, s, j, ic) <==> MatchesFrom(ts, s, j + 1, ic)
  {
  }

  lemma LastStart(ts: seq<Token>, s: string, j: nat, ic: bool)
    requires |s| <= j + 1 && j <= |s| && !Matches(ts, s[j..], ic) && ts != [] && !ts[0].Star?
    ensures !MatchesFrom(ts, s, j, ic)
  {
    assert s[|s|..] == "";
  }

  // ---- prefixes: what has been matched so far ----

  lemma {:induction false} MatchesSnoc(ts: seq<Token>, t: Token, s: string, c: char, ic: bool)
    requires Matches(ts, s, ic) && !t.Star? && Hits(t, Value(c), ic)
    ensures Matches(ts + [t], s + [c], ic)
  {
    if ts == [] {
      assert ([] + [t])[1..] == [] && (s + [c])[1..] == "";
    } else {
      assert (ts + [t])[1..] == ts[1..] + [t];
      if ts[0].Star? {
        var k :| 0 <= k <= |s| && Matches(ts[1..], s[k..], ic);
        MatchesSnoc(ts[1..], t, s[k..], c, ic);
        assert (s + [c])[k..] == s[k..] + [c];
      } else {
        MatchesSnoc(ts[1..], t, s[1..], c, ic);
        assert (s + [c])[1..] == s[1..] + [c];
      }
    }
  }

  lemma {:induction false} StarStretches(ts: seq<Token>, s: string, more: string, ic: bool)
    requires Matches(ts, s, ic)
    ensures Matches(ts + [Star], s + more, ic)
  {
    if ts == [] {
      assert ([] + [Star])[1..] == [] && (s + more)[|more|..] == "";
      assert Matches([], (s + more)[|more|..], ic);
    } else {
      assert (ts + [Star])[1..] == ts[1..] + [Star];
      if ts[0].Star? {
        var k :| 0 <= k <= |s| && Matches(ts[1..], s[k..], ic);
        StarStretches(ts[1..], s[k..], more, ic);
        assert (s + more)[k..] == s[k..] + more;
      } else {
        StarStretches(ts[1..], s[1..], more, ic);
        assert (s + more)[1..] == s[1..] + more;
      }
    }
  }

  // ---- the matcher ----

  // Where the items of the class at p[i] start, and what they are.
  lemma LexClass(p: CString, i: nat)
    requires i < |p| && p[i] == '[' && Lex(p, i).Lexed?
    ensures var reverse := i + 1 < |p| && p[i + 1] == '^';
      var items := ParseItems(p, if reverse then i + 2 else i + 1, NONE);
      items.Items? && Lex(p, i) == Lexed(Class(reverse, items.items), items.close + 1)
  {
  }

  // One step through the items.
  lemma ItemStep(p: CString, i: nat, last: int)
    requires i < |p| && p[i] != ']' && ParseItems(p, i, last).Items?
    ensures p[i] == '-' ==>
              && i + 2 <= |p| && ParseItems(p, i + 2, Value(p[i + 1])).Items?
              && ParseItems(p, i, last).items == [Range(last, p[i + 1])] + ParseItems(p, i + 2, Value(p[i + 1])).items
              && ParseItems(p, i, last).close == ParseItems(p, i + 2, Value(p[i + 1])).close
    ensures p[i] != '-' ==>
              && ParseItems(p, i + 1, Value(p[i])).Items?
              && ParseItems(p, i, last).items == [One(p[i])] + ParseItems(p, i + 1, Value(p[i])).items
              && ParseItems(p, i, last).close == ParseItems(p, i + 1, Value(p[i])).close
  {
  }

  lemma ItemsEnd(p: CString, i: nat, last: int)
    requires i < |p| && p[i] == ']'
    ensures ParseItems(p, i, last) == Items([], i)
  {
  }

  // Scan the class at p[i] for a character; `close` is the place of its ']'.
  method ScanClass(p: CString, i: nat, c: int, ic: bool) returns (hit: bool, close: nat)
    requires i < |p| && p[i] == '[' && Lex(p, i).Lexed?
    ensures Lex(p, i).next == close + 1 && hit == Hits(Lex(p, i).token, c, ic)
  {
    hide Lex, ParseItems, CharEq, CharRange;
    LexClass(p, i);
    var reverse := i + 1 < |p| && p[i + 1] == '^';
    var q := if reverse then i + 2 else i + 1;
    ghost var whole := ParseItems(p, q, NONE);
    var last, matched := NONE, false;
    ghost var seen: seq<Item> := [];
    while p[q] != ']'
      invariant q < |p| && ParseItems(p, q, last).Items?
      invariant whole == Items(seen + ParseItems(p, q, last).items, ParseItems(p, q, last).close)
      invariant matched <==> exists k :: 0 <= k < |seen| && ItemHits(seen[k], c, ic)
      decreases |p| - q
    {
      ItemStep(p, q, last);
      ghost var item;
      if p[q] == '-' {
        q := q + 1;
        item := Range(last, p[q]);
        if CharRange(c, last, Value(p[q]), ic) {
          matched := true;
        }
      } else {
        item := One(p[q]);
        if CharEq(c, Value(p[q]), ic) {
          matched := true;
        }
      }
      SeenSnoc(seen, item, c, ic);
      seen := seen + [item];
      last := Value(p[q]);
      q := q + 1;
    }
    ItemsEnd(p, q, last);
    assert seen + [] == seen;
    hit, close := matched != reverse, q;
  }

  lemma SeenSnoc(seen: seq<Item>, item: Item, c: int, ic: bool)
    ensures (exists k :: 0 <= k < |seen + [item]| && ItemHits((seen + [item])[k], c, ic))
      <==> (exists k :: 0 <= k < |seen| && ItemHits(seen[k], c, ic)) || ItemHits(item, c, ic)
  {
    var all := seen + [item];
    assert all[|seen|] == item;
    assert forall k :: 0 <= k < |seen| ==> all[k] == seen[k];
  }

  // A verdict, or PastEnd: a class accepted the NUL at the end of the subject, and the
  // code reads on beyond it. No such pattern matches, so FALSE would be right there too.
  datatype Outcome = Verdict(matched: bool) | PastEnd

  // The step over one accepted character.
  lemma TakeOne(pre: seq<Token>, head: seq<Token>, t: Token, s: string, from: nat, to: nat, ic: bool)
    requires Took(pre, s, from, to, ic) && to < |s| && !t.Star? && Hits(t, Value(s[to]), ic)
    requires Matches(head, s[..to], ic)
    ensures Took(pre + [t], s, from, to + 1, ic)
    ensures Matches(head + [t], s[..to + 1], ic)
  {
    MatchesSnoc(head, t, s[..to], s[to], ic);
    assert s[..to + 1] == s[..to] + [s[to]];
  }

  // The matcher's variables, and what a proof remembers beside them: the tokens taken
  // since the last star, all tokens passed, those before the last star, and how much of
  // the subject these had matched when it came.
  datatype State = State(si: nat, pi: nat, starred: bool, savedS: nat, savedP: nat,
                         pre: seq<Token>, head: seq<Token>, starHead: seq<Token>, starN: nat)

  // Whether the pattern matches depends only on what is left to try.
  ghost predicate Left(s: CString, p: CString, ic: bool, m: State)
    requires m.savedP <= |p| && WellFormed(p, m.savedP)
  {
    if m.starred then MatchesFrom(Tokens(p, m.savedP), s, m.savedS, ic)
    else m.savedS <= |s| && Matches(Tokens(p, m.savedP), s[m.savedS..], ic)
  }

  ghost predicate Inv(s: CString, p: CString, ic: bool, m: State) {
    && WellFormed(p, 0) && m.savedP <= m.pi <= |p| && WellFormed(p, m.pi) && WellFormed(p, m.savedP)
    && Took(m.pre, s, m.savedS, m.si, ic)
    && Tokens(p, m.savedP) == m.pre + Tokens(p, m.pi)
    && (if m.starred then m.savedP < |p| else m.savedP == 0 && m.savedS == 0)
    && (Matches(Tokens(p, 0), s, ic) <==> Left(s, p, ic, m))
    && Tokens(p, 0) == m.head + Tokens(p, m.pi) && Matches(m.head, s[..m.si], ic)
    && (m.starred ==>
         && Tokens(p, 0) == m.starHead + [Star] + Tokens(p, m.savedP)
         && m.starN <= m.savedS && Matches(m.starHead, s[..m.starN], ic))
  }

  // This starting place is spoiled.
  ghost predicate Spoiled(s: CString, p: CString, ic: bool, m: State)
    requires Inv(s, p, ic, m)
  {
    !Matches(Tokens(p, m.savedP), s[m.savedS..], ic)
    && (m.starred ==> Tokens(p, m.savedP) != [] && !Tokens(p, m.savedP)[0].Star?)
  }

  lemma OnEnd(s: CString, p: CString, ic: bool, m: State)
    requires Inv(s, p, ic, m) && m.pi == |p|
    ensures m.si == |s| ==> Matches(Tokens(p, 0), s, ic)
    ensures m.si < |s| ==> Spoiled(s, p, ic, m)
  {
    assert m.pre + [] == m.pre && m.head + [] == m.head;
    if m.si == |s| {
      assert s[..m.si] == s;
    } else {
      EndsEarly(m.pre, s, m.savedS, m.si, ic);
    }
  }

  // The token under the pattern cursor splits everything that is left.
  lemma SplitAtToken(p: CString, i: nat, pre: seq<Token>)
    requires i < |p| && WellFormed(p, i)
    ensures pre + Tokens(p, i) == pre + [Lex(p, i).token] + Tokens(p, Lex(p, i).next)
  {
  }

  lemma LexStar(p: CString, i: nat)
    requires i < |p| && p[i] == '*' && WellFormed(p, i)
    ensures Lex(p, i) == Lexed(Star, i + 1) && WellFormed(p, i + 1)
  {
  }

  lemma LexOther(p: CString, i: nat)
    requires i < |p| && p[i] != '*' && Lex(p, i).Lexed?
    ensures !Lex(p, i).token.Star?
  {
  }

  lemma NothingMatchesNothing(s: CString, j: nat, ic: bool)
    requires j <= |s|
    ensures MatchesFrom([], s, j, ic)
  {
    assert s[|s|..] == "" && Matches([], s[|s|..], ic);
  }

  lemma OnStar(s: CString, p: CString, ic: bool, m: State)
    requires Inv(s, p, ic, m) && m.pi < |p| && p[m.pi] == '*'
    ensures m.pi + 1 == |p| ==> Matches(Tokens(p, 0), s, ic)
    ensures m.pi + 1 < |p| ==>
              Inv(s, p, ic, State(m.si, m.pi + 1, true, m.si, m.pi + 1, [], m.head + [Star], m.head, m.si))
  {
    hide Matches, Lex, MatchesFrom;
    LexStar(p, m.pi);
    var rest := Tokens(p, m.pi + 1);
    SplitAtToken(p, m.pi, m.pre);
    SplitAtToken(p, m.pi, m.head);
    StarForgets(m.pre, rest, s, m.savedS, m.si, ic);
    StarStretches(m.head, s[..m.si], "", ic);
    assert s[..m.si] + "" == s[..m.si] && [] + rest == rest;
    if m.pi + 1 == |p| {
      NothingMatchesNothing(s, m.si, ic);
    }
  }

  lemma OnRefused(s: CString, p: CString, ic: bool, m: State)
    requires Inv(s, p, ic, m) && m.pi < |p| && p[m.pi] != '*'
    requires m.si == |s| || !Hits(Lex(p, m.pi).token, Value(s[m.si]), ic)
    ensures Spoiled(s, p, ic, m)
  {
    hide Matches, Lex;
    LexOther(p, m.pi);
    SplitAtToken(p, m.pi, m.pre);
    RefusedHere(m.pre, Lex(p, m.pi).token, Tokens(p, Lex(p, m.pi).next), s, m.savedS, m.si, ic);
  }

  lemma OnNoneLeft(s: CString, p: CString, ic: bool, m: State)
    requires Inv(s, p, ic, m) && m.pi < |p| && p[m.pi] != '*' && m.si == |s|
    ensures !Matches(Tokens(p, 0), s, ic)
  {
    hide Matches, Lex;
    LexOther(p, m.pi);
    SplitAtToken(p, m.pi, m.pre);
    NoneLeft(m.pre, Lex(p, m.pi).token, Tokens(p, Lex(p, m.pi).next), s, m.savedS, ic);
  }

  lemma OnTaken(s: CString, p: CString, ic: bool, m: State)
    requires Inv(s, p, ic, m) && m.pi < |p| && p[m.pi] != '*'
    requires m.si < |s| && Hits(Lex(p, m.pi).token, Value(s[m.si]), ic)
    ensures var t := Lex(p, m.pi).token;
      Inv(s, p, ic, m.(si := m.si + 1, pi := Lex(p, m.pi).next, pre := m.pre + [t], head := m.head + [t]))
  {
    hide Matches, Lex;
    SplitAtToken(p, m.pi, m.pre);
    SplitAtToken(p, m.pi, m.head);
    TakeOne(m.pre, m.head, Lex(p, m.pi).token, s, m.savedS, m.si, ic);
  }

  // Back to the last star, which takes one more character; or nothing is left to try.
  lemma OnBacktrack(s: CString, p: CString, ic: bool, m: State)
    requires Inv(s, p, ic, m) && Spoiled(s, p, ic, m)
    ensures !m.starred || m.savedS + 1 >= |s| ==> !Matches(Tokens(p, 0), s, ic)
    ensures m.starred && m.savedS + 1 < |s| ==>
              Inv(s, p, ic, m.(si := m.savedS + 1, pi := m.savedP, savedS := m.savedS + 1, pre := [],
                               head := m.starHead + [Star]))
  {
    hide Matches;
    if m.starred {
      var ts := Tokens(p, m.savedP);
      if m.savedS + 1 >= |s| {
        LastStart(ts, s, m.savedS, ic);
      } else {
        NextStart(ts, s, m.savedS, ic);
        var j := m.savedS + 1;
        StarStretches(m.starHead, s[..m.starN], s[m.starN..j], ic);
        assert s[..m.starN] + s[m.starN..j] == s[..j] && [] + ts == ts;
      }
    }
  }

  lemma OnPastEnd(s: CString, p: CString, ic: bool, m: State)
    requires Inv(s, p, ic, m) && m.pi < |p| && m.si == |s|
    ensures |m.head| < |Tokens(p, 0)| && Tokens(p, 0)[|m.head|] == Lex(p, m.pi).token
    ensures Matches(Tokens(p, 0)[..|m.head|], s, ic)
  {
    hide Matches, Lex;
    SplitAtToken(p, m.pi, m.head);
    assert Tokens(p, 0)[..|m.head|] == m.head && s[..m.si] == s;
  }

  // A class accepts the NUL that ends the subject, after the tokens before it have
  // matched the whole subject.
  ghost predicate ClassMeetsEnd(s: CString, p: CString, ic: bool, i: nat)
    requires WellFormed(p, 0)
  {
    var ts := Tokens(p, 0);
    i < |ts| && ts[i].Class? && Hits(ts[i], 0, ic) && Matches(ts[..i], s, ic)
  }

  // ---- reading past the end, exactly ----

  // The matcher over tokens: `ts` is left from position j on, `seg` was begun at `start`.
  function Run(ts: seq<Token>, j: nat, seg: seq<Token>, start: nat, starred: bool, s: string, ic: bool): Outcome
    requires start <= j <= |s| && |ts| <= |seg|
    decreases |seg|, |s| - start, 1 + |ts|
  {
    if ts == [] then
      if j == |s| then Verdict(true) else Again(seg, start, starred, s, ic)
    else if ts[0].Star? then
      if |ts| == 1 then Verdict(true) else Run(ts[1..], j, ts[1..], j, true, s, ic)
    else if j == |s| then
      if ts[0].Any? then Verdict(false)
      else if MeetsNul(ts[0], ic) then PastEnd
      else Again(seg, start, starred, s, ic)
    else if Hits(ts[0], Value(s[j]), ic) then Run(ts[1..], j + 1, seg, start, starred, s, ic)
    else Again(seg, start, starred, s, ic)
  }

  // The tokens since the last star once more, one character further on.
  function Again(seg: seq<Token>, start: nat, starred: bool, s: string, ic: bool): Outcome
    requires start <= |s|
    decreases |seg|, |s| - start, 0
  {
    if !starred || start + 1 >= |s| then Verdict(false) else Run(seg, start + 1, seg, start + 1, true, s, ic)
  }

  predicate MeetsNul(t: Token, ic: bool) {
    t.Class? && Hits(t, 0, ic)
  }

  // How many tokens come before the first star.
  function SegLen(ts: seq<Token>): (n: nat)
    ensures n <= |ts| && (n < |ts| ==> ts[n].Star?) && forall k :: 0 <= k < n ==> !ts[k].Star?
  {
    if ts == [] || ts[0].Star? then 0 else 1 + SegLen(ts[1..])
  }

  // The first n tokens take one character each from position b on.
  predicate Take(ts: seq<Token>, n: nat, s: string, b: nat, ic: bool) {
    n <= |ts| && b + n <= |s| && forall k :: 0 <= k < n ==> Hits(ts[k], Value(s[b + k]), ic)
  }

  // The tokens up to the first star match at b; without a star, all of the subject.
  predicate Succeeds(ts: seq<Token>, s: string, b: nat, ic: bool) {
    Take(ts, SegLen(ts), s, b, ic) && (SegLen(ts) < |ts| || b + |ts| == |s|)
  }

  // The subject ends under one of them, a '?' or a class that accepts the NUL.
  predicate Stops(ts: seq<Token>, s: string, b: nat, ic: bool) {
    && b <= |s| && |s| - b < SegLen(ts) && Take(ts, |s| - b, s, b, ic)
    && (ts[|s| - b].Any? || MeetsNul(ts[|s| - b], ic))
  }

  // The places a segment is tried at: the first, and behind a star those before the end.
  predicate Tried(s: string, lo: nat, b: nat, starred: bool) {
    b == lo || (starred && lo < b < |s|)
  }

  ghost predicate FirstSuccess(ts: seq<Token>, s: string, lo: nat, starred: bool, b: nat, ic: bool) {
    && Tried(s, lo, b, starred) && Succeeds(ts, s, b, ic)
    && forall c: nat :: c < b && Tried(s, lo, c, starred) ==> !Succeeds(ts, s, c, ic)
  }

  ghost predicate FirstStop(ts: seq<Token>, s: string, lo: nat, starred: bool, b: nat, ic: bool) {
    && Tried(s, lo, b, starred) && Stops(ts, s, b, ic)
    && forall c: nat :: c < b && Tried(s, lo, c, starred) ==> !Stops(ts, s, c, ic)
  }

  // When a class is asked about the NUL and accepts it: the segments before its own match,
  // each as early as it can; its own matches nowhere; and of the places where the subject
  // ends under a '?' or such a class the first one tried has the class.
  ghost predicate ReadsPastEnd(ts: seq<Token>, s: string, lo: nat, starred: bool, ic: bool)
    decreases |ts|
  {
    || (exists b: nat :: FirstSuccess(ts, s, lo, starred, b, ic) && SegLen(ts) + 1 < |ts|
                         && ReadsPastEnd(ts[SegLen(ts) + 1..], s, b + SegLen(ts), true, ic))
    || ((forall b: nat :: Tried(s, lo, b, starred) ==> !Succeeds(ts, s, b, ic))
        && exists b: nat :: FirstStop(ts, s, lo, starred, b, ic) && MeetsNul(ts[|s| - b], ic))
  }

  // One try of the tokens since the last star.
  lemma {:induction false} OneTry(pre: seq<Token>, ts: seq<Token>, start: nat, starred: bool, s: string, ic: bool)
    requires start + |pre| <= |s| && Singles(pre) && Take(pre + ts, |pre|, s, start, ic)
    ensures var seg, j := pre + ts, start + |pre|;
      var r, n := Run(ts, j, seg, start, starred, s, ic), SegLen(seg);
      && (Succeeds(seg, s, start, ic) ==>
            r == if n + 1 < |seg| then Run(seg[n + 1..], start + n, seg[n + 1..], start + n, true, s, ic) else Verdict(true))
      && (Stops(seg, s, start, ic) ==> r == if MeetsNul(seg[|s| - start], ic) then PastEnd else Verdict(false))
      && (!Succeeds(seg, s, start, ic) && !Stops(seg, s, start, ic) ==> r == Again(seg, start, starred, s, ic))
    decreases |ts|
  {
    hide Hits, Again, SegLen, Succeeds, Stops, Take, MeetsNul, Singles;
    var seg, j := pre + ts, start + |pre|;
    SegLenBoth(pre, ts);
    if ts == [] {
      assert seg == pre;
      TryEnds(seg, start, s, ic);
    } else {
      assert seg[|pre|] == ts[0] && seg[|pre| + 1..] == ts[1..];
      SegLenHead(ts);
      if ts[0].Star? {
        TryMeetsStar(seg, |pre|, start, s, ic);
      } else if j == |s| {
        TryRunsOut(seg, |pre|, start, s, ic);
      } else if Hits(ts[0], Value(s[j]), ic) {
        assert (pre + [ts[0]]) + ts[1..] == seg;
        TryGoesOn(pre, ts[0], start, s, ic);
        assert seg[..|pre|] == pre && seg[..|pre| + 1] == pre + [ts[0]];
        TakeMore(seg, |pre|, start, s, ic);
        OneTry(pre + [ts[0]], ts[1..], start, starred, s, ic);
      } else {
        RefusedTry(seg, |pre|, start, s, ic);
      }
    }
  }

  lemma SegLenHead(ts: seq<Token>)
    requires ts != []
    ensures SegLen(ts) == if ts[0].Star? then 0 else 1 + SegLen(ts[1..])
  {
  }

  lemma TryGoesOn(pre: seq<Token>, t: Token, start: nat, s: string, ic: bool)
    requires Singles(pre) && !t.Star?
    ensures Singles(pre + [t])
  {
  }

  lemma TakeMore(seg: seq<Token>, n: nat, start: nat, s: string, ic: bool)
    requires Take(seg, n, s, start, ic) && n < |seg| && start + n < |s| && Hits(seg[n], Value(s[start + n]), ic)
    ensures Take(seg, n + 1, s, start, ic)
  {
    hide Hits;
  }

  lemma TryEnds(seg: seq<Token>, start: nat, s: string, ic: bool)
    requires Take(seg, |seg|, s, start, ic) && SegLen(seg) == |seg|
    ensures (Succeeds(seg, s, start, ic) <==> start + |seg| == |s|) && !Stops(seg, s, start, ic)
  {
    hide Hits, SegLen;
  }

  lemma TryMeetsStar(seg: seq<Token>, n: nat, start: nat, s: string, ic: bool)
    requires Take(seg, n, s, start, ic) && SegLen(seg) == n < |seg|
    ensures Succeeds(seg, s, start, ic) && !Stops(seg, s, start, ic)
  {
    hide Hits, SegLen;
  }

  lemma TryRunsOut(seg: seq<Token>, n: nat, start: nat, s: string, ic: bool)
    requires Take(seg, n, s, start, ic) && n < SegLen(seg) && start + n == |s|
    ensures !Succeeds(seg, s, start, ic)
    ensures Stops(seg, s, start, ic) <==> seg[n].Any? || MeetsNul(seg[n], ic)
    ensures seg[n].Any? ==> !MeetsNul(seg[n], ic)
  {
    hide Hits, SegLen;
  }

  lemma {:induction false} SegLenBoth(pre: seq<Token>, ts: seq<Token>)
    requires Singles(pre)
    ensures SegLen(pre + ts) == |pre| + SegLen(ts)
  {
    if pre == [] {
      assert pre + ts == ts;
    } else {
      assert (pre + ts)[1..] == pre[1..] + ts;
      SegLenBoth(pre[1..], ts);
    }
  }

  lemma RefusedTry(seg: seq<Token>, n: nat, start: nat, s: string, ic: bool)
    requires n < SegLen(seg) && start + n < |s| && !Hits(seg[n], Value(s[start + n]), ic)
    ensures !Succeeds(seg, s, start, ic) && !Stops(seg, s, start, ic)
  {
    hide Hits, SegLen;
  }

  // A place where the subject ends under the segment leaves no later place to match it.
  lemma StopsMeansNoSuccess(ts: seq<Token>, s: string, lo: nat, starred: bool, ic: bool)
    requires Stops(ts, s, lo, ic)
    ensures forall b: nat :: Tried(s, lo, b, starred) ==> !Succeeds(ts, s, b, ic)
  {
    hide Hits, SegLen;
  }

  // The matcher reads past the end exactly then.
  lemma {:induction false} RunPastEnd(ts: seq<Token>, lo: nat, starred: bool, s: string, ic: bool)
    requires lo <= |s|
    ensures Run(ts, lo, ts, lo, starred, s, ic) == PastEnd <==> ReadsPastEnd(ts, s, lo, starred, ic)
    decreases |ts|, |s| - lo
  {
    hide Hits, SegLen, Stops, Succeeds, MeetsNul, Run, ReadsPastEnd, Take;
    assert [] + ts == ts;
    assert Take(ts, 0, s, lo, ic) by { NoneTaken(ts, s, lo, ic); }
    OneTry([], ts, lo, starred, s, ic);
    if Succeeds(ts, s, lo, ic) {
      PastOnSuccess(ts, s, lo, starred, ic);
      if SegLen(ts) + 1 < |ts| {
        InsideSubject(ts, s, lo, ic);
        RunPastEnd(ts[SegLen(ts) + 1..], lo + SegLen(ts), true, s, ic);
      }
    } else if Stops(ts, s, lo, ic) {
      StopInside(ts, s, lo, ic);
      PastOnStop(ts, s, lo, starred, ic);
    } else if starred && lo + 1 < |s| {
      RunPastEnd(ts, lo + 1, true, s, ic);
      NextPlace(ts, s, lo, lo + 1, ic);
    } else {
      PastOnNothing(ts, s, lo, starred, ic);
    }
  }

  lemma NoneTaken(ts: seq<Token>, s: string, b: nat, ic: bool)
    requires b <= |s|
    ensures Take(ts, 0, s, b, ic)
  {
  }

  lemma PastOnSuccess(ts: seq<Token>, s: string, lo: nat, starred: bool, ic: bool)
    requires Succeeds(ts, s, lo, ic)
    ensures ReadsPastEnd(ts, s, lo, starred, ic)
       <==> SegLen(ts) + 1 < |ts| && ReadsPastEnd(ts[SegLen(ts) + 1..], s, lo + SegLen(ts), true, ic)
  {
    hide SegLen, Stops, Succeeds, MeetsNul;
    OnlyFirst(ts, s, lo, starred, ic);
    assert FirstSuccess(ts, s, lo, starred, lo, ic);
  }

  lemma PastOnStop(ts: seq<Token>, s: string, lo: nat, starred: bool, ic: bool)
    requires Stops(ts, s, lo, ic) && lo <= |s| && |s| - lo < |ts|
    ensures ReadsPastEnd(ts, s, lo, starred, ic) <==> MeetsNul(ts[|s| - lo], ic)
  {
    hide SegLen, Stops, Succeeds, MeetsNul;
    StopsMeansNoSuccess(ts, s, lo, starred, ic);
    assert FirstStop(ts, s, lo, starred, lo, ic);
  }

  lemma PastOnNothing(ts: seq<Token>, s: string, lo: nat, starred: bool, ic: bool)
    requires !Succeeds(ts, s, lo, ic) && !Stops(ts, s, lo, ic) && (!starred || lo + 1 >= |s|)
    ensures !ReadsPastEnd(ts, s, lo, starred, ic)
  {
    hide SegLen, Stops, Succeeds, MeetsNul;
  }

  lemma OnlyFirst(ts: seq<Token>, s: string, lo: nat, starred: bool, ic: bool)
    requires Succeeds(ts, s, lo, ic)
    ensures forall b: nat :: FirstSuccess(ts, s, lo, starred, b, ic) ==> b == lo
    ensures Tried(s, lo, lo, starred)
  {
    hide Succeeds;
  }

  lemma InsideSubject(ts: seq<Token>, s: string, b: nat, ic: bool)
    requires Succeeds(ts, s, b, ic)
    ensures b + SegLen(ts) <= |s|
  {
  }

  lemma StopInside(ts: seq<Token>, s: string, b: nat, ic: bool)
    requires Stops(ts, s, b, ic)
    ensures b <= |s| && |s| - b < |ts|
  {
  }

  // A place that neither succeeds nor stops is left behind.
  lemma NextPlace(ts: seq<Token>, s: string, lo: nat, next: nat, ic: bool)
    requires next == lo + 1 < |s| && !Succeeds(ts, s, lo, ic) && !Stops(ts, s, lo, ic)
    ensures ReadsPastEnd(ts, s, lo, true, ic) <==> ReadsPastEnd(ts, s, next, true, ic)
  {
    hide Succeeds, Stops, SegLen, MeetsNul, FirstSuccess, FirstStop, Tried;
    forall b: nat
      ensures FirstSuccess(ts, s, lo, true, b, ic) <==> FirstSuccess(ts, s, next, true, b, ic)
      ensures FirstStop(ts, s, lo, true, b, ic) <==> FirstStop(ts, s, next, true, b, ic)
      ensures b != lo ==> Tried(s, lo, b, true) == Tried(s, next, b, true)
      ensures Tried(s, next, b, true) ==> b != lo
    {
      SameFirsts(ts, s, lo, next, b, ic);
    }
  }

  lemma SameFirsts(ts: seq<Token>, s: string, lo: nat, next: nat, b: nat, ic: bool)
    requires next == lo + 1 < |s| && !Succeeds(ts, s, lo, ic) && !Stops(ts, s, lo, ic)
    ensures FirstSuccess(ts, s, lo, true, b, ic) <==> FirstSuccess(ts, s, next, true, b, ic)
    ensures FirstStop(ts, s, lo, true, b, ic) <==> FirstStop(ts, s, next, true, b, ic)
    ensures b != lo ==> Tried(s, lo, b, true) == Tried(s, next, b, true)
    ensures Tried(s, next, b, true) ==> b != lo
  {
    hide Succeeds, Stops;
    assert forall c: nat :: c != lo ==> Tried(s, lo, c, true) == Tried(s, next, c, true);
  }

  // The pattern [^a] on the empty subject is read past its end; *[^a] on "b" is not, though
  // its class accepts the NUL behind a star that takes the whole subject.
  lemma PastTheEnd()
    ensures var p: CString := "[^a]"; WellFormed(p, 0) && ReadsPastEnd(Tokens(p, 0), "", 0, false, false)
    ensures var p: CString := "*[^a]"; WellFormed(p, 0) && ClassMeetsEnd("b", p, false, 1) && !ReadsPastEnd(Tokens(p, 0), "b", 0, false, false)
  {
    var t := Class(true, [One('a')]);
    ExampleTokens();
    assert MeetsNul(t, false) && Hits(t, Value('b'), false) by { NotAnA(); }
    var ts, us := [t], [Star, t];
    assert SegLen(ts) == 1 by { assert ts[1..] == []; }
    assert FirstStop(ts, "", 0, false, 0, false);
    assert us[1..] == ts && SegLen(us) == 0;
    assert Succeeds(us, "b", 0, false) && Succeeds(ts, "b", 0, false);
    OnlyFirst(us, "b", 0, false, false);
    OnlyFirst(ts, "b", 0, true, false);
    assert !ReadsPastEnd(ts, "b", 0, true, false);
    assert us[..1] == [Star] && [Star][1..] == [] && "b"[1..] == "" && Matches([], "b"[1..], false);
  }

  lemma NotAnA()
    ensures var t := Class(true, [One('a')]); Hits(t, 0, false) && Hits(t, Value('b'), false)
  {
    assert !ItemHits([One('a')][0], 0, false) && !ItemHits([One('a')][0], Value('b'), false);
  }

  lemma ExampleTokens()
    ensures var p: CString := "[^a]"; WellFormed(p, 0) && Tokens(p, 0) == [Class(true, [One('a')])]
    ensures var p: CString := "*[^a]"; WellFormed(p, 0) && Tokens(p, 0) == [Star, Class(true, [One('a')])]
  {
    ClassAlone("[^a]", 0);
    var p: CString := "*[^a]";
    ClassAlone(p, 1);
    LexStar1(p);
  }

  lemma LexStar1(p: CString)
    requires p == "*[^a]" && WellFormed(p, 1) && Tokens(p, 1) == [Class(true, [One('a')])]
    ensures WellFormed(p, 0) && Tokens(p, 0) == [Star, Class(true, [One('a')])]
  {
    assert Lex(p, 0) == Lexed(Star, 1);
  }

  lemma ClassAlone(p: CString, i: nat)
    requires i + 4 == |p| && p[i..] == "[^a]"
    ensures WellFormed(p, i) && Tokens(p, i) == [Class(true, [One('a')])]
  {
    assert p[i] == p[i..][0] && p[i + 1] == p[i..][1] && p[i + 2] == p[i..][2] && p[i + 3] == p[i..][3];
    assert ParseItems(p, i + 3, Value('a')) == Items([], i + 3);
    assert ParseItems(p, i + 2, NONE) == Items([One('a')] + [], i + 3);
    assert [One('a')] + [] == [One('a')];
    assert Lex(p, i) == Lexed(Class(true, [One('a')]), i + 4);
    assert Tokens(p, i + 4) == [];
  }

  // ---- the loop ----

  // What the matcher will say, from its state.
  ghost predicate OnCourse(s: CString, p: CString, ic: bool, m: State, r: Outcome) {
    && m.savedP <= m.pi <= |p| && WellFormed(p, m.pi) && WellFormed(p, m.savedP)
    && m.savedS <= m.si <= |s| && |Tokens(p, m.pi)| <= |Tokens(p, m.savedP)|
    && r == Run(Tokens(p, m.pi), m.si, Tokens(p, m.savedP), m.savedS, m.starred, s, ic)
  }

  // It has failed here and goes back to the last star.
  ghost predicate OffCourse(s: CString, p: CString, ic: bool, m: State, r: Outcome) {
    && m.savedP <= |p| && WellFormed(p, m.savedP) && m.savedS <= |s|
    && r == Again(Tokens(p, m.savedP), m.savedS, m.starred, s, ic)
  }

  lemma CourseEnd(s: CString, p: CString, ic: bool, m: State, r: Outcome)
    requires OnCourse(s, p, ic, m, r) && m.pi == |p|
    ensures m.si == |s| ==> r == Verdict(true)
    ensures m.si < |s| ==> OffCourse(s, p, ic, m, r)
  {
    hide Again;
  }

  lemma CourseStar(s: CString, p: CString, ic: bool, m: State, n: State, r: Outcome)
    requires OnCourse(s, p, ic, m, r) && m.pi < |p| && p[m.pi] == '*'
    requires n.si == n.savedS == m.si && n.pi == n.savedP == m.pi + 1 && n.starred
    ensures n.pi == |p| ==> r == Verdict(true)
    ensures n.pi < |p| ==> OnCourse(s, p, ic, n, r)
  {
    hide Again, Lex;
    LexStar(p, m.pi);
    TokensHead(p, m.pi);
    if n.pi < |p| {
      TokensHead(p, n.pi);
    } else {
      assert Tokens(p, n.pi) == [];
    }
  }

  lemma TokensHead(p: CString, i: nat)
    requires i < |p| && WellFormed(p, i)
    ensures Lex(p, i).Lexed? && WellFormed(p, Lex(p, i).next)
    ensures Tokens(p, i) == [Lex(p, i).token] + Tokens(p, Lex(p, i).next)
    ensures Tokens(p, i) != [] && Tokens(p, i)[0] == Lex(p, i).token && Tokens(p, i)[1..] == Tokens(p, Lex(p, i).next)
  {
    hide Lex;
  }

  lemma CourseToken(s: CString, p: CString, ic: bool, m: State, n: State, r: Outcome)
    requires OnCourse(s, p, ic, m, r) && m.pi < |p| && p[m.pi] != '*' && Lex(p, m.pi).Lexed?
    requires n.si == m.si + 1 && n.pi == Lex(p, m.pi).next
    requires n.savedS == m.savedS && n.savedP == m.savedP && n.starred == m.starred
    ensures var t := Lex(p, m.pi).token;
      && (m.si == |s| ==>
            if t.Any? then r == Verdict(false) else if MeetsNul(t, ic) then r == PastEnd else OffCourse(s, p, ic, m, r))
      && (m.si < |s| && !Hits(t, Value(s[m.si]), ic) ==> OffCourse(s, p, ic, m, r))
      && (m.si < |s| && Hits(t, Value(s[m.si]), ic) ==>
            OnCourse(s, p, ic, n, r))
  {
    hide Again, Lex, Tokens, Hits, MeetsNul;
    LexOther(p, m.pi);
    TokensHead(p, m.pi);
  }

  lemma CourseAgain(s: CString, p: CString, ic: bool, m: State, n: State, r: Outcome)
    requires OffCourse(s, p, ic, m, r)
    requires n.si == n.savedS == m.savedS + 1 && n.pi == n.savedP == m.savedP && n.starred == m.starred
    ensures !m.starred || m.savedS + 1 >= |s| ==> r == Verdict(false)
    ensures m.starred && m.savedS + 1 < |s| ==> OnCourse(s, p, ic, n, r)
  {
    hide Run, Tokens;
  }

  // What one token other than a star says of the character under the cursor; Beyond: a class
  // accepts the NUL.
  datatype Answer = Taken | Refused | Short | Beyond

  // The cases of the switch but the star's.
  method AskToken(s: CString, si: nat, p: CString, pi: nat, ic: bool) returns (a: Answer, next: nat)
    requires si <= |s| && pi < |p| && p[pi] != '*' && Lex(p, pi).Lexed?
    ensures next == Lex(p, pi).next
    ensures a.Taken? <==> si < |s| && Hits(Lex(p, pi).token, Value(s[si]), ic)
    ensures a.Short? <==> si == |s| && Lex(p, pi).token.Any?
    ensures a.Beyond? <==> si == |s| && MeetsNul(Lex(p, pi).token, ic)
  {
    hide ParseItems;
    if p[pi] == '?' {
      return if si == |s| then Short else Taken, pi + 1;
    }
    if p[pi] == '[' {
      var hit, close := ScanClass(p, pi, At(s, si), ic);
      LexClass(p, pi);
      return if !hit then Refused else if si == |s| then Beyond else Taken, close + 1;
    }
    var lit := if p[pi] == '\\' then pi + 1 else pi;
    return if CharEq(At(s, si), Value(p[lit]), ic) then Taken else Refused, lit + 1;
  }

  method Match(s: CString, p: CString, ic: bool) returns (r: Outcome)
    requires WellFormed(p, 0)
    ensures r == Verdict(true) <==> Matches(Tokens(p, 0), s, ic)
    ensures r.PastEnd? <==> ReadsPastEnd(Tokens(p, 0), s, 0, false, ic)
    ensures r.PastEnd? ==> exists i: nat :: ClassMeetsEnd(s, p, ic, i)
  {
    hide Matches, Tokens, Took, Spoiled, Left, Inv, Run, OnCourse, OffCourse, ReadsPastEnd, MeetsNul, Lex, Hits;
    var si: nat, pi: nat := 0, 0;
    var starred, savedS: nat, savedP: nat := false, 0, 0;
    ghost var m := State(0, 0, false, 0, 0, [], [], [], 0);
    ghost var fate := Run(Tokens(p, 0), 0, Tokens(p, 0), 0, false, s, ic);
    RunPastEnd(Tokens(p, 0), 0, false, s, ic);
    Started(s, p, ic);
    assert OnCourse(s, p, ic, m, fate) by { CourseStart(s, p, ic); }
    while true
      invariant Inv(s, p, ic, m) && OnCourse(s, p, ic, m, fate)
      invariant m.si == si && m.pi == pi && m.starred == starred && m.savedS == savedS && m.savedP == savedP
      decreases |p| - savedP, |s| - savedS, |p| - pi
    {
      InvBounds(s, p, ic, m);
      var fail := false;
      if pi == |p| {
        OnEnd(s, p, ic, m);
        CourseEnd(s, p, ic, m, fate);
        if si == |s| {
          return Verdict(true);
        }
        fail := true;
      } else if p[pi] == '*' {
        OnStar(s, p, ic, m);
        ghost var n := State(si, pi + 1, true, si, pi + 1, [], m.head + [Star], m.head, si);
        CourseStar(s, p, ic, m, n, fate);
        pi := pi + 1;
        if pi == |p| {
          return Verdict(true);
        }
        starred, savedS, savedP := true, si, pi;
        m := n;
      } else {
        ghost var t := Lex(p, pi).token;
        ghost var n := m.(si := si + 1, pi := Lex(p, pi).next, pre := m.pre + [t], head := m.head + [t]);
        CourseToken(s, p, ic, m, n, fate);
        var answer, next := AskToken(s, si, p, pi, ic);
        if answer.Short? {
          OnNoneLeft(s, p, ic, m);
          return Verdict(false);
        }
        if answer.Beyond? {
          OnNoneLeft(s, p, ic, m);
          OnPastEnd(s, p, ic, m);
          assert ClassMeetsEnd(s, p, ic, |m.head|) by { NulIs(t, ic); }
          return PastEnd;
        }
        fail := answer.Refused?;
        pi := next;
        if fail {
          OnRefused(s, p, ic, m);
        } else {
          OnTaken(s, p, ic, m);
          si := si + 1;
          m := n;
        }
      }
      if fail {
        OnBacktrack(s, p, ic, m);
        ghost var n := m.(si := savedS + 1, pi := savedP, savedS := savedS + 1, pre := [], head := m.starHead + [Star]);
        CourseAgain(s, p, ic, m, n, fate);
        if !starred || savedS == |s| || savedS + 1 == |s| {
          return Verdict(false);
        }
        savedS := savedS + 1;
        si, pi := savedS, savedP;
        m := n;
      }
    }
  }

  lemma CourseStart(s: CString, p: CString, ic: bool)
    requires WellFormed(p, 0)
    ensures OnCourse(s, p, ic, State(0, 0, false, 0, 0, [], [], [], 0), Run(Tokens(p, 0), 0, Tokens(p, 0), 0, false, s, ic))
  {
    hide Run;
  }

  lemma NulIs(t: Token, ic: bool)
    ensures MeetsNul(t, ic) <==> t.Class? && Hits(t, 0, ic)
  {
  }

  lemma Started(s: CString, p: CString, ic: bool)
    requires WellFormed(p, 0)
    ensures Inv(s, p, ic, State(0, 0, false, 0, 0, [], [], [], 0))
  {
    assert s[0..] == s && s[..0] == "" && [] + Tokens(p, 0) == Tokens(p, 0);
  }

  lemma InvBounds(s: CString, p: CString, ic: bool, m: State)
    requires Inv(s, p, ic, m)
    ensures m.savedS <= m.si <= |s| && m.pi <= |p| && m.savedP <= |p| && WellFormed(p, m.pi)
    ensures m.savedP <= m.pi && (m.starred ==> m.savedP < |p|)
  {
    hide Matches, Tokens, Left;
  }

  // wildmatch itself: mode 2 swaps subject and pattern, modes 1 and 2 ignore case.
  method WildMatch(s: CString, p: CString, mode: int) returns (r: Outcome)
    requires WellFormed(if mode == 2 then s else p, 0)
    ensures var (subject, pattern, ic) := if mode == 2 then (p, s, true) else (s, p, mode != 0);
      && (r == Verdict(true) <==> Matches(Tokens(pattern, 0), subject, ic))
      && (r.PastEnd? <==> ReadsPastEnd(Tokens(pattern, 0), subject, 0, false, ic))
      && (r.PastEnd? ==> exists i: nat :: ClassMeetsEnd(subject, pattern, ic, i))
  {
    hide Matches;
    if mode == 2 {
      r := Match(p, s, true);
    } else {
      r := Match(s, p, mode != 0);
    }
  }
}
