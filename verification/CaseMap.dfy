// Case mapping of history keys: which part of a message id ignores case.
module CaseMap {
  import opened Common

  const POSTMASTER := "postmaster"

  // memchr: the first place of c in s, if any.
  function IndexOf(s: string, c: char): (r: Option<nat>)
    ensures r.None? ==> c !in s
    ensures r.Some? ==> r.value < |s| && s[r.value] == c && c !in s[..r.value]
  {
    if s == "" then None
    else if s[0] == c then Some(0)
    else match IndexOf(s[1..], c)
      case None => None
      case Some(k) => assert s[..k + 1] == [s[0]] + s[1..][..k]; Some(k + 1)
  }

  // The index from which case is ignored (cipoint); None when it never is.
  function CaseBreak(mode: char, s: string): (r: Option<nat>)
    ensures r.Some? ==> r.value <= |s|
  {
    if mode == 'C' then
      match IndexOf(s, '@')
      case None => None
      case Some(at) =>
        // "<postmaster@..." ignores case from its very start
        if at == |POSTMASTER| + 1 && Lower(s[1..at]) == POSTMASTER then Some(0) else Some(at)
    else if mode == '=' then Some(0)
    else None
  }

  function MapCase(mode: char, s: string): (r: string)
    ensures |r| == |s|
  {
    match CaseBreak(mode, s)
    case None => s
    case Some(p) => s[..p] + Lower(s[p..])
  }

  // casencmp(a, b, n) == 0, scanning like the source: stops early at a NUL of a.
  method SameIgnoringCase(a: string, b: string) returns (same: bool)
    requires |a| == |b| && '\0' !in b
    ensures same <==> Lower(a) == Lower(b)
    ensures same <==> SameButCase(a, b)
  {
    var i := 0;
    while i < |a| && a[i] != '\0' && LowerChar(a[i]) == LowerChar(b[i])
      invariant 0 <= i <= |a|
      invariant forall k :: 0 <= k < i ==> Lower(a)[k] == Lower(b)[k]
    {
      i := i + 1;
    }
    if i < |a| {
      assert LowerChar(a[i]) != LowerChar(b[i]);
      assert Lower(a)[i] != Lower(b)[i];
    }
    same := i == |a|;
    LowerSame(a, b);
  }

  // cipoint.
  method FindCaseBreak(mode: char, s: string) returns (r: Option<nat>)
    ensures r == CaseBreak(mode, s)
  {
    if mode == 'C' {
      var at := IndexOf(s, '@');
      if at.None? {
        return None;
      }
      if at.value == |POSTMASTER| + 1 {
        assert Lower(POSTMASTER) == POSTMASTER;
        var same := SameIgnoringCase(s[1..at.value], POSTMASTER);
        if same {
          return Some(0);
        }
      }
      return at;
    }
    r := if mode == '=' then Some(0) else None;
  }

  // mapcase: copy up to the break, then copy lowered.
  method MapCaseInto(mode: char, s: string) returns (d: string)
    ensures d == MapCase(mode, s)
  {
    var c := FindCaseBreak(mode, s);
    if c.None? {
      return s;
    }
    d := "";
    var i := 0;
    while i < c.value
      invariant 0 <= i <= c.value && d == s[..i]
    {
      d := d + [s[i]];
      i := i + 1;
    }
    while i < |s|
      invariant c.value <= i <= |s|
      invariant d == s[..c.value] + Lower(s[c.value..i])
    {
      assert s[c.value..i + 1] == s[c.value..i] + [s[i]];
      d := d + [LowerChar(s[i])];
      i := i + 1;
    }
    assert s[c.value..i] == s[c.value..];
  }

  // Appending a character that is neither '@' nor an upper-case letter appends it to
  // the mapped form: a terminating NUL or a field separator never moves the break.
  lemma MapCaseSnoc(mode: char, s: string, c: char)
    requires c != '@' && !('A' <= c <= 'Z')
    ensures MapCase(mode, s + [c]) == MapCase(mode, s) + [c]
  {
    hide CaseBreak, Lower;
    CaseBreakSnoc(mode, s, c);
    match CaseBreak(mode, s)
    case None =>
    case Some(p) =>
      assert (s + [c])[..p] == s[..p];
      assert (s + [c])[p..] == s[p..] + [c];
      LowerSnoc(s[p..], c);
  }

  lemma CaseBreakSnoc(mode: char, s: string, c: char)
    requires c != '@'
    ensures CaseBreak(mode, s + [c]) == CaseBreak(mode, s)
  {
    hide IndexOf, Lower;
    IndexOfSnoc(s, '@', c);
    var at := IndexOf(s, '@');
    assert at.Some? && at.value >= 1 ==> (s + [c])[1..at.value] == s[1..at.value];
  }

  lemma LowerSnoc(s: string, c: char)
    requires !('A' <= c <= 'Z')
    ensures Lower(s + [c]) == Lower(s) + [c]
  {
  }

  lemma {:induction false} IndexOfSnoc(s: string, a: char, c: char)
    requires a != c
    ensures IndexOf(s + [c], a) == IndexOf(s, a)
  {
    if s == "" {
      assert s + [c] == [c];
      assert [c][1..] == "";
    } else {
      assert (s + [c])[1..] == s[1..] + [c];
      IndexOfSnoc(s[1..], a, c);
    }
  }

  // Mapping keeps separators and NULs where they are and makes no new ones.
  lemma MapCaseKeepsMarks(mode: char, s: string, i: nat)
    requires i < |s|
    ensures MapCase(mode, s)[i] == '\t' <==> s[i] == '\t'
    ensures MapCase(mode, s)[i] == '\0' <==> s[i] == '\0'
  {
    hide CaseBreak;
    match CaseBreak(mode, s)
    case None =>
    case Some(p) => assert i >= p ==> MapCase(mode, s)[i] == Lower(s[p..])[i - p] == LowerChar(s[p..][i - p]);
  }

  // ---- what is one key ----

  // The same character, or a letter in its two cases.
  predicate SameLetter(a: char, b: char) {
    a == b || LetterAndSmall(a, b) || LetterAndSmall(b, a)
  }

  predicate LetterAndSmall(a: char, b: char) {
    exists k :: 0 <= k < 26 && a == "ABCDEFGHIJKLMNOPQRSTUVWXYZ"[k] && b == "abcdefghijklmnopqrstuvwxyz"[k]
  }

  // The same but for the case of letters.
  predicate SameButCase(s: string, t: string) {
    |s| == |t| && forall i :: 0 <= i < |s| ==> SameLetter(s[i], t[i])
  }

  lemma LetterPair(a: char, b: char)
    ensures LetterAndSmall(a, b) <==> 'A' <= a <= 'Z' && b as int == a as int + 32
  {
    if 'A' <= a <= 'Z' && b as int == a as int + 32 {
      Alphabet(a as int - 'A' as int);
    }
    if LetterAndSmall(a, b) {
      var k :| 0 <= k < 26 && a == "ABCDEFGHIJKLMNOPQRSTUVWXYZ"[k] && b == "abcdefghijklmnopqrstuvwxyz"[k];
      Alphabet(k);
    }
  }

  lemma LowerSameLetter(a: char, b: char)
    ensures LowerChar(a) == LowerChar(b) <==> SameLetter(a, b)
  {
    hide LetterAndSmall;
    LetterPair(a, b);
    LetterPair(b, a);
  }

  // Lower-casing makes one text of just those that differ in case alone.
  lemma LowerSame(s: string, t: string)
    ensures Lower(s) == Lower(t) <==> SameButCase(s, t)
  {
    hide SameLetter, LowerChar;
    forall i | 0 <= i < |s| && i < |t| ensures LowerChar(s[i]) == LowerChar(t[i]) <==> SameLetter(s[i], t[i]) {
      LowerSameLetter(s[i], t[i]);
    }
    if Lower(s) == Lower(t) {
      assert |s| == |t|;
      assert forall i :: 0 <= i < |s| ==> Lower(s)[i] == Lower(t)[i];
    }
  }

  // "<postmaster@...", in any case.
  predicate ToPostmaster(s: string) {
    |s| > 11 && s[11] == '@' && '@' !in s[..11] && SameButCase(s[1..11], "postmaster")
  }

  // Character i comes before the first '@'.
  predicate Local(s: string, i: nat)
    requires i < |s|
  {
    '@' !in s[..i + 1]
  }

  // Letter for letter the same up to the first '@'.
  predicate SameLocalPart(s: string, t: string) {
    |s| == |t| && forall i :: 0 <= i < |s| && Local(s, i) ==> s[i] == t[i]
  }

  // Two ids are one key when they differ in case alone, and in mode C only behind the first
  // '@', unless they are the postmaster's; in the other modes when they are equal.
  predicate OneKey(mode: char, s: string, t: string) {
    if mode == '=' then SameButCase(s, t)
    else if mode == 'C' then SameButCase(s, t) && (ToPostmaster(s) || SameLocalPart(s, t))
    else s == t
  }

  lemma SameMapped(mode: char, s: string, t: string)
    ensures MapCase(mode, s) == MapCase(mode, t) <==> OneKey(mode, s, t)
  {
    hide Lower, ToPostmaster, SameLocalPart, CaseBreak, MapCase, SameButCase;
    LowerSame(s, t);
    SameExact(mode, s, t);
    ExactLength(mode, s);
    if Lower(s) == Lower(t) {
      assert |s| == |t|;
      LocalPrefix(s, t);
      assert s[..0] == t[..0];
    }
  }

  // Up to where the mapped form is the id itself.
  function Exact(mode: char, s: string): (n: nat)
    ensures n <= |s|
  {
    CaseBreak(mode, s).GetOr(|s|)
  }

  lemma ExactLength(mode: char, s: string)
    ensures mode == '=' ==> Exact(mode, s) == 0
    ensures mode == 'C' ==> Exact(mode, s) == if ToPostmaster(s) then 0 else IndexOf(s, '@').GetOr(|s|)
    ensures mode != '=' && mode != 'C' ==> Exact(mode, s) == |s|
  {
    hide Lower, IndexOf, ToPostmaster;
    PostmasterIs(s);
  }

  lemma PostmasterIs(s: string)
    ensures ToPostmaster(s) <==> IndexOf(s, '@') == Some(11) && Lower(s[1..11]) == POSTMASTER
  {
    hide Lower, IndexOf, SameButCase;
    SmallLetters();
    if |s| > 11 && s[11] == '@' && '@' !in s[..11] {
      IndexIs(s, '@', 11);
    }
    if |s| > 11 {
      LowerSame(s[1..11], "postmaster");
    }
  }

  lemma SmallLetters()
    ensures Lower("postmaster") == "postmaster"
  {
  }

  lemma {:induction false} IndexIs(s: string, c: char, k: nat)
    requires k < |s| && s[k] == c && c !in s[..k]
    ensures IndexOf(s, c) == Some(k)
  {
    if k > 0 {
      assert s[0] in s[..k];
      assert forall x :: x in s[1..][..k - 1] ==> x in s[..k];
      IndexIs(s[1..], c, k - 1);
    }
  }

  lemma SameExact(mode: char, s: string, t: string)
    ensures MapCase(mode, s) == MapCase(mode, t)
       <==> Lower(s) == Lower(t) && Exact(mode, s) <= |t| && s[..Exact(mode, s)] == t[..Exact(mode, s)]
  {
    hide Lower, CaseBreak, IndexOf;
    var p := Exact(mode, s);
    MappedLowers(mode, s);
    MappedLowers(mode, t);
    if Lower(s) == Lower(t) {
      SameBreak(mode, s, t);
      assert s[p..] == s[p..|s|] && t[p..] == t[p..|t|];
      LowerSlice(s, p);
      LowerSlice(t, p);
      if MapCase(mode, s) == MapCase(mode, t) {
        assert s[..p] == MapCase(mode, s)[..p] && t[..p] == MapCase(mode, t)[..p];
      }
    }
  }

  lemma LowerSlice(s: string, p: nat)
    requires p <= |s|
    ensures Lower(s[p..]) == Lower(s)[p..] && Lower(s) == Lower(s[..p]) + Lower(s[p..])
  {
  }

  lemma MappedLowers(mode: char, s: string)
    ensures Lower(MapCase(mode, s)) == Lower(s)
  {
    hide CaseBreak;
    match CaseBreak(mode, s)
    case None =>
    case Some(p) => assert forall i :: 0 <= i < |s| ==> LowerChar(MapCase(mode, s)[i]) == LowerChar(s[i]);
  }

  // Where case is ignored from does not depend on case.
  lemma SameBreak(mode: char, s: string, t: string)
    requires Lower(s) == Lower(t)
    ensures CaseBreak(mode, s) == CaseBreak(mode, t)
  {
    hide IndexOf;
    SameIndex(s, t);
    var at := IndexOf(s, '@');
    if at.Some? && at.value >= 1 {
      assert Lower(s[1..at.value]) == Lower(s)[1..at.value] == Lower(t[1..at.value]);
    }
  }

  lemma {:induction false} SameIndex(s: string, t: string)
    requires Lower(s) == Lower(t)
    ensures IndexOf(s, '@') == IndexOf(t, '@')
  {
    if s != "" {
      assert |s| == |t| && LowerChar(s[0]) == Lower(s)[0] == Lower(t)[0] == LowerChar(t[0]);
      assert Lower(s[1..]) == Lower(s)[1..] == Lower(t)[1..] == Lower(t[1..]);
      SameIndex(s[1..], t[1..]);
    }
  }

  lemma LocalPrefix(s: string, t: string)
    requires |s| == |t|
    ensures var n := IndexOf(s, '@').GetOr(|s|); SameLocalPart(s, t) <==> s[..n] == t[..n]
  {
    hide IndexOf;
    var n := IndexOf(s, '@').GetOr(|s|);
    assert '@' !in s[..n] by { assert s[..|s|] == s; }
    forall i | 0 <= i < |s| ensures Local(s, i) <==> i < n {
      if i < n {
        assert forall x :: x in s[..i + 1] ==> x in s[..n];
      } else {
        assert s[..i + 1][n] == '@';
      }
    }
    if s[..n] == t[..n] {
      assert forall i :: 0 <= i < n ==> s[i] == s[..n][i] && t[i] == t[..n][i];
    }
  }
}
