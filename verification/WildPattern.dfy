// What the text of a pattern means: the subjects each piece of it takes, by the alphabet.
module WildPattern {
  import opened Common
  import opened Wildmat

  // A character, or a '-' and a character behind the one before.
  datatype Member = Single(c: char) | UpTo(c: char)

  datatype Part =
    | AnyRun
    | AnyOne
    | Plain(c: char)
    | Quoted(c: char)
    | Set(reverse: bool, members: seq<Member>)

  predicate InC(c: char) { 0 < c as int < 256 }

  predicate MemberOk(m: Member) {
    InC(m.c) && (m.Single? ==> m.c != ']' && m.c != '-')
  }

  predicate MembersOk(ms: seq<Member>) {
    forall i :: 0 <= i < |ms| ==> MemberOk(ms[i])
  }

  predicate PartOk(part: Part) {
    match part
    case Plain(c) => InC(c) && c != '\\' && c != '?' && c != '*' && c != '['
    case Quoted(c) => InC(c)
    case Set(reverse, ms) => MembersOk(ms) && (!reverse && ms != [] ==> ms[0] != Single('^'))
    case _ => true
  }

  predicate PartsOk(parts: seq<Part>) {
    forall i :: 0 <= i < |parts| ==> PartOk(parts[i])
  }

  function MemberText(m: Member): string {
    match m case Single(c) => [c] case UpTo(c) => ['-', c]
  }

  function MembersText(ms: seq<Member>): string {
    if ms == [] then "" else MemberText(ms[0]) + MembersText(ms[1..])
  }

  function PartText(part: Part): string {
    match part
    case AnyRun => "*"
    case AnyOne => "?"
    case Plain(c) => [c]
    case Quoted(c) => ['\\', c]
    case Set(reverse, ms) => (if reverse then "[^" else "[") + MembersText(ms) + "]"
  }

  function PatternText(parts: seq<Part>): string {
    if parts == [] then "" else PartText(parts[0]) + PatternText(parts[1..])
  }

  // ---- meaning ----

  // The capital of a small letter, anything else itself; looked up from place k on.
  function Capital(c: char, k: nat): char
    requires k <= 26
    decreases 26 - k
  {
    if k == 26 then c
    else if c == "abcdefghijklmnopqrstuvwxyz"[k] then "ABCDEFGHIJKLMNOPQRSTUVWXYZ"[k]
    else Capital(c, k + 1)
  }

  function Shape(c: char, ic: bool): char {
    if ic then Capital(c, 0) else c
  }

  // The order of characters in C, where those from 128 on are negative.
  predicate NotAbove(a: char, b: char) {
    if a as int < 128 <==> b as int < 128 then a <= b else b as int < 128
  }

  predicate Equal(a: char, b: char, ic: bool) {
    Shape(a, ic) == Shape(b, ic)
  }

  predicate Between(low: char, c: char, high: char, ic: bool) {
    NotAbove(Shape(low, ic), Shape(c, ic)) && NotAbove(Shape(c, ic), Shape(high, ic))
  }

  // A single character, or all from the character before the '-' up to the one behind it.
  predicate MemberTakes(ms: seq<Member>, i: nat, c: char, ic: bool)
    requires i < |ms|
  {
    match ms[i]
    case Single(d) => Equal(c, d, ic)
    case UpTo(d) => i > 0 && Between(ms[i - 1].c, c, d, ic)
  }

  predicate PartTakes(part: Part, c: char, ic: bool) {
    match part
    case AnyRun => false
    case AnyOne => true
    case Plain(d) => Equal(c, d, ic)
    case Quoted(d) => Equal(c, d, ic)
    case Set(reverse, ms) => (exists i :: 0 <= i < |ms| && MemberTakes(ms, i, c, ic)) != reverse
  }

  ghost predicate Means(parts: seq<Part>, s: string, ic: bool)
    decreases |parts|
  {
    if parts == [] then s == ""
    else if parts[0].AnyRun? then exists k :: 0 <= k <= |s| && Means(parts[1..], s[k..], ic)
    else s != "" && PartTakes(parts[0], s[0], ic) && Means(parts[1..], s[1..], ic)
  }

  // ---- characters ----

  lemma {:induction false} CapitalFrom(c: char, k: nat)
    requires k <= 26 && !('a' as int <= c as int < 'a' as int + k)
    ensures Capital(c, k) == if 'a' <= c <= 'z' then (c as int - 32) as char else c
    decreases 26 - k
  {
    if k < 26 {
      Alphabet(k);
      if c != "abcdefghijklmnopqrstuvwxyz"[k] {
        CapitalFrom(c, k + 1);
      }
    }
  }

  lemma ShapeValue(c: char, ic: bool)
    requires InC(c)
    ensures InC(Shape(c, ic)) && Value(Shape(c, ic)) == if ic then Upper(Value(c)) else Value(c)
  {
    CapitalFrom(c, 0);
  }

  lemma ValueOrder(a: char, b: char)
    requires InC(a) && InC(b)
    ensures NotAbove(a, b) <==> Value(a) <= Value(b)
    ensures a == b <==> Value(a) == Value(b)
  {
  }

  lemma EqualIs(a: char, b: char, ic: bool)
    requires InC(a) && InC(b)
    ensures Equal(a, b, ic) <==> CharEq(Value(a), Value(b), ic)
  {
    hide Shape, Value, Upper;
    ShapeValue(a, ic);
    ShapeValue(b, ic);
    ValueOrder(Shape(a, ic), Shape(b, ic));
  }

  lemma BetweenIs(low: char, c: char, high: char, ic: bool)
    requires InC(low) && InC(c) && InC(high)
    ensures Between(low, c, high, ic) <==> CharRange(Value(c), Value(low), Value(high), ic)
  {
    hide Shape, Value, Upper, NotAbove;
    ShapeValue(low, ic);
    ShapeValue(c, ic);
    ShapeValue(high, ic);
    ValueOrder(Shape(low, ic), Shape(c, ic));
    ValueOrder(Shape(c, ic), Shape(high, ic));
  }

  lemma NothingToStartFrom(c: char, high: char, ic: bool)
    requires InC(c)
    ensures !CharRange(Value(c), NONE, Value(high), ic)
  {
  }

  // ---- tokens ----

  function ItemsOf(ms: seq<Member>, last: int): (r: seq<Item>)
    ensures |r| == |ms|
  {
    if ms == [] then []
    else [match ms[0] case Single(c) => One(c) case UpTo(c) => Range(last, c)] + ItemsOf(ms[1..], Value(ms[0].c))
  }

  function TokenOf(part: Part): Token {
    match part
    case AnyRun => Star
    case AnyOne => Any
    case Plain(c) => Lit(c)
    case Quoted(c) => Lit(c)
    case Set(reverse, ms) => Class(reverse, ItemsOf(ms, NONE))
  }

  function TokensOf(parts: seq<Part>): (r: seq<Token>)
    ensures |r| == |parts|
  {
    if parts == [] then [] else [TokenOf(parts[0])] + TokensOf(parts[1..])
  }

  lemma {:induction false} ItemAt(ms: seq<Member>, last: int, i: nat)
    requires i < |ms|
    ensures ItemsOf(ms, last)[i] == match ms[i]
            case Single(c) => One(c)
            case UpTo(c) => Range(if i == 0 then last else Value(ms[i - 1].c), c)
  {
    if i > 0 {
      ItemAt(ms[1..], Value(ms[0].c), i - 1);
    }
  }

  lemma MemberHits(ms: seq<Member>, i: nat, c: char, ic: bool)
    requires i < |ms| && MembersOk(ms) && InC(c)
    ensures ItemHits(ItemsOf(ms, NONE)[i], Value(c), ic) <==> MemberTakes(ms, i, c, ic)
  {
    hide Equal, Between, CharEq, CharRange, Value;
    ItemAt(ms, NONE, i);
    assert MemberOk(ms[i]) && (i > 0 ==> MemberOk(ms[i - 1]));
    match ms[i]
    case Single(d) => EqualIs(c, d, ic);
    case UpTo(d) =>
      NothingToStartFrom(c, d, ic);
      if i > 0 {
        BetweenIs(ms[i - 1].c, c, d, ic);
      }
  }

  lemma PartHits(part: Part, c: char, ic: bool)
    requires PartOk(part) && InC(c)
    ensures Hits(TokenOf(part), Value(c), ic) <==> PartTakes(part, c, ic)
  {
    hide Equal, CharEq, MemberTakes, ItemHits, ItemsOf;
    match part
    case Plain(d) => EqualIs(c, d, ic);
    case Quoted(d) => EqualIs(c, d, ic);
    case Set(reverse, ms) =>
      forall i | 0 <= i < |ms|
        ensures ItemHits(ItemsOf(ms, NONE)[i], Value(c), ic) <==> MemberTakes(ms, i, c, ic)
      {
        MemberHits(ms, i, c, ic);
      }
    case _ =>
  }

  lemma {:induction false} SameMeaning(parts: seq<Part>, s: string, ic: bool)
    requires PartsOk(parts) && IsCString(s)
    ensures Matches(TokensOf(parts), s, ic) <==> Means(parts, s, ic)
    decreases |parts|
  {
    hide Hits, PartTakes, PartOk;
    if parts != [] {
      var ts, rest := TokensOf(parts), parts[1..];
      assert ts[0] == TokenOf(parts[0]) && ts[1..] == TokensOf(rest) && PartOk(parts[0]);
      if parts[0].AnyRun? {
        forall k | 0 <= k <= |s| ensures Matches(ts[1..], s[k..], ic) <==> Means(rest, s[k..], ic) {
          SameMeaning(rest, s[k..], ic);
        }
      } else if s != "" {
        PartHits(parts[0], s[0], ic);
        SameMeaning(rest, s[1..], ic);
      }
    }
  }

  // ---- the text is cut into these tokens ----

  lemma {:induction false} MembersAreC(ms: seq<Member>)
    requires MembersOk(ms)
    ensures IsCString(MembersText(ms))
  {
    if ms != [] {
      assert MemberOk(ms[0]);
      MembersAreC(ms[1..]);
    }
  }

  lemma PartIsC(part: Part)
    requires PartOk(part)
    ensures IsCString(PartText(part)) && PartText(part) != ""
  {
    if part.Set? {
      MembersAreC(part.members);
    }
  }

  lemma {:induction false} PatternIsC(parts: seq<Part>)
    requires PartsOk(parts)
    ensures IsCString(PatternText(parts))
  {
    hide PartText, PartOk;
    if parts != [] {
      assert PartOk(parts[0]);
      PartIsC(parts[0]);
      PatternIsC(parts[1..]);
    }
  }

  lemma {:induction false} MembersParsed(a: string, ms: seq<Member>, rest: string, last: int)
    requires MembersOk(ms) && IsCString(a + MembersText(ms) + "]" + rest)
    ensures ParseItems(a + MembersText(ms) + "]" + rest, |a|, last) == Items(ItemsOf(ms, last), |a + MembersText(ms)|)
    decreases |ms|
  {
    var p := a + MembersText(ms) + "]" + rest;
    if ms == [] {
      assert p[|a|] == ']';
    } else {
      var m := ms[0];
      assert MemberOk(m);
      assert p == (a + MemberText(m)) + MembersText(ms[1..]) + "]" + rest;
      MembersParsed(a + MemberText(m), ms[1..], rest, Value(m.c));
      assert p[|a|] == MemberText(m)[0];
      assert m.UpTo? ==> p[|a| + 1] == m.c;
    }
  }

  lemma LexPart(a: string, part: Part, rest: string)
    requires PartOk(part) && IsCString(a + PartText(part) + rest)
    ensures PartText(part) != ""
    ensures Lex(a + PartText(part) + rest, |a|) == Lexed(TokenOf(part), |a + PartText(part)|)
  {
    hide ParseItems, ItemsOf, MembersText;
    var p := a + PartText(part) + rest;
    if part.Set? {
      LexSet(a, part.reverse, part.members, rest);
    } else {
      assert p[|a|] == PartText(part)[0];
      assert part.Quoted? ==> p[|a| + 1] == PartText(part)[1];
    }
  }

  lemma LexSet(a: string, reverse: bool, ms: seq<Member>, rest: string)
    requires PartOk(Set(reverse, ms)) && IsCString(a + PartText(Set(reverse, ms)) + rest)
    ensures var t := PartText(Set(reverse, ms));
      Lex(a + t + rest, |a|) == Lexed(Class(reverse, ItemsOf(ms, NONE)), |a + t|)
  {
    hide ParseItems, ItemsOf, MembersText, MembersOk;
    var open := if reverse then "[^" else "[";
    var p := a + PartText(Set(reverse, ms)) + rest;
    assert p == (a + open) + MembersText(ms) + "]" + rest;
    assert p[|a|] == '[';
    MembersParsed(a + open, ms, rest, NONE);
    FirstMember(ms);
    var next := MembersText(ms) + "]" + rest;
    assert p == (a + open) + next;
    assert p[|a + open|] == next[0];
    assert reverse ==> p[|a| + 1] == '^';
    assert next[0] == if ms == [] then ']' else MembersText(ms)[0];
  }

  // A class that is not reversed does not begin with '^'.
  lemma FirstMember(ms: seq<Member>)
    ensures ms == [] ==> MembersText(ms) == ""
    ensures ms != [] ==> MembersText(ms) != "" && MembersText(ms)[0] == if ms[0].Single? then ms[0].c else '-'
  {
  }

  lemma {:induction false} TokensFound(a: string, parts: seq<Part>)
    requires PartsOk(parts) && IsCString(a + PatternText(parts))
    ensures WellFormed(a + PatternText(parts), |a|) && Tokens(a + PatternText(parts), |a|) == TokensOf(parts)
    decreases |parts|
  {
    hide PartText, Lex, PartOk, TokenOf;
    if parts == [] {
      assert a + "" == a;
    } else {
      var t, rest := PartText(parts[0]), PatternText(parts[1..]);
      assert PartOk(parts[0]);
      Regroup(a, t, rest);
      LexPart(a, parts[0], rest);
      TokensFound(a + t, parts[1..]);
    }
  }

  // A pattern matches just what its pieces mean.
  lemma PatternMeans(parts: seq<Part>, s: CString, ic: bool)
    requires PartsOk(parts)
    ensures IsCString(PatternText(parts)) && WellFormed(PatternText(parts), 0)
    ensures Matches(Tokens(PatternText(parts), 0), s, ic) <==> Means(parts, s, ic)
  {
    hide PartsOk, WellFormed, Tokens, Matches, Means;
    PatternIsC(parts);
    assert "" + PatternText(parts) == PatternText(parts);
    TokensFound("", parts);
    SameMeaning(parts, s, ic);
  }

  // ---- every pattern has such pieces ----

  lemma {:induction false} MembersAt(p: CString, i: nat, last: int) returns (ms: seq<Member>)
    requires i <= |p| && ParseItems(p, i, last).Items?
    ensures MembersOk(ms) && MembersText(ms) == p[i..ParseItems(p, i, last).close]
    ensures ms != [] && ms[0].Single? ==> i < |p| && ms[0].c == p[i]
    decreases |p| - i
  {
    if p[i] == ']' {
      ms := [];
    } else {
      var m := if p[i] == '-' then UpTo(p[i + 1]) else Single(p[i]);
      var next := i + |MemberText(m)|;
      var more := MembersAt(p, next, Value(m.c));
      ms := [m] + more;
      assert ms[1..] == more;
      assert p[i..next] == MemberText(m);
      assert p[i..next] + p[next..ParseItems(p, i, last).close] == p[i..ParseItems(p, i, last).close];
    }
  }

  lemma PartAt(p: CString, i: nat) returns (part: Part)
    requires i < |p| && Lex(p, i).Lexed?
    ensures PartOk(part) && PartText(part) == p[i..Lex(p, i).next]
  {
    hide ParseItems, MembersText;
    if p[i] == '\\' {
      part := Quoted(p[i + 1]);
    } else if p[i] == '?' {
      part := AnyOne;
    } else if p[i] == '*' {
      part := AnyRun;
    } else if p[i] == '[' {
      var reverse := i + 1 < |p| && p[i + 1] == '^';
      var from := if reverse then i + 2 else i + 1;
      var ms := MembersAt(p, from, NONE);
      part := Set(reverse, ms);
      var close := ParseItems(p, from, NONE).close;
      assert p[i..from] + p[from..close] + [p[close]] == p[i..close + 1];
      assert p[i..from] == if reverse then "[^" else "[";
    } else {
      part := Plain(p[i]);
    }
  }

  lemma {:induction false} PartsFrom(p: CString, i: nat) returns (parts: seq<Part>)
    requires i <= |p| && WellFormed(p, i)
    ensures PartsOk(parts) && PatternText(parts) == p[i..]
    decreases |p| - i
  {
    hide Lex, PartText, PartOk;
    if i == |p| {
      parts := [];
    } else {
      var part := PartAt(p, i);
      var more := PartsFrom(p, Lex(p, i).next);
      parts := [part] + more;
      assert parts[1..] == more;
      assert p[i..Lex(p, i).next] + p[Lex(p, i).next..] == p[i..];
    }
  }

  // Every pattern with closed brackets and no backslash at its end is made of such pieces, and
  // matches just what they mean.
  lemma EveryPattern(p: CString, s: CString, ic: bool) returns (parts: seq<Part>)
    requires WellFormed(p, 0)
    ensures PartsOk(parts) && PatternText(parts) == p
    ensures Matches(Tokens(p, 0), s, ic) <==> Means(parts, s, ic)
  {
    hide PartsOk, Matches, Means, WellFormed, Tokens;
    parts := PartsFrom(p, 0);
    assert p[0..] == p;
    PatternMeans(parts, s, ic);
  }

  // ---- one piece alone ----

  // A pattern of one piece takes the subjects of the one character that the piece takes.
  lemma OnePart(part: Part, s: CString, ic: bool)
    requires PartOk(part) && !part.AnyRun?
    ensures IsCString(PartText(part)) && WellFormed(PartText(part), 0)
    ensures Matches(Tokens(PartText(part), 0), s, ic) <==> |s| == 1 && PartTakes(part, s[0], ic)
  {
    hide PartOk, Tokens, Matches, WellFormed, PartText, PartTakes;
    var parts := [part];
    assert parts[1..] == [];
    assert PatternText(parts) == PartText(part) + "" == PartText(part);
    PatternMeans(parts, s, ic);
  }

  lemma TwoMembers(a: Member, b: Member)
    ensures MembersText([a, b]) == MemberText(a) + MemberText(b)
  {
    assert [a, b][1..] == [b] && [b][1..] == [];
    assert MembersText([b]) == MemberText(b) + "" == MemberText(b);
  }

  // A range takes what lies between its ends, both included, and its low end in any case; with a
  // '^' before it, all other characters.
  lemma OneRange(low: char, high: char, reverse: bool, s: CString, ic: bool)
    requires InC(low) && InC(high) && low != ']' && low != '-' && (low == '^' ==> reverse)
    ensures var p := (if reverse then "[^" else "[") + [low, '-', high] + "]";
      && IsCString(p) && WellFormed(p, 0)
      && (Matches(Tokens(p, 0), s, ic)
          <==> |s| == 1 && (Equal(s[0], low, ic) || Between(low, s[0], high, ic)) != reverse)
  {
    hide Tokens, Matches, WellFormed, Equal, Between;
    var ms := [Single(low), UpTo(high)];
    var part := Set(reverse, ms);
    assert MemberOk(ms[0]) && MemberOk(ms[1]);
    TwoMembers(ms[0], ms[1]);
    assert [low] + ['-', high] == [low, '-', high];
    OnePart(part, s, ic);
    if |s| == 1 {
      assert MemberTakes(ms, 0, s[0], ic) <==> Equal(s[0], low, ic);
      assert MemberTakes(ms, 1, s[0], ic) <==> Between(low, s[0], high, ic);
    }
  }
}
