// Unfolding a header and cutting it into tokens; UTF-8 well-formedness along the way.
module MimeTokens {
  import opened Common
  import opened Base64
  import opened MimeText

  predicate IsBreak(b: byte) { b == CR || b == NL }

  function SkipBreaks(s: seq<byte>): (r: seq<byte>)
    ensures |r| <= |s| && (s != [] && IsBreak(s[0]) ==> |r| < |s|)
  {
    if s != [] && IsBreak(s[0]) then SkipBreaks(s[1..]) else s
  }

  // mime_header_unfold from source s on, with d already written: line ends go, and a
  // space comes in their place when neither side has a blank and d is not empty.
  function Unfold(s: seq<byte>, d: seq<byte>): seq<byte>
    decreases |s|
  {
    if s == [] then d
    else if !IsBreak(s[0]) then Unfold(s[1..], d + [s[0]])
    else
      var r := SkipBreaks(s);
      if r == [] then d
      else if !IsBlank(r[0]) && d != [] && !IsBlank(d[|d| - 1]) then Unfold(r, d + [SP])
      else Unfold(r, d)
  }

  // The inner loop over a run of line ends.
  method PassBreaks(src: seq<byte>, start: nat) returns (i: nat)
    requires start < |src| && IsBreak(src[start])
    ensures start < i <= |src| && src[i..] == SkipBreaks(src[start..])
  {
    hide SkipBreaks;
    i := start;
    while i < |src| && IsBreak(src[i])
      invariant start <= i <= |src| && SkipBreaks(src[start..]) == SkipBreaks(src[i..])
    {
      SkipStep(src, i);
      i := i + 1;
    }
    SkipStep(src, i);
  }

  lemma SkipStep(src: seq<byte>, i: nat)
    requires i <= |src|
    ensures SkipBreaks(src[i..]) ==
            if i < |src| && IsBreak(src[i]) then SkipBreaks(src[i + 1..]) else src[i..]
  {
    assert i < |src| ==> src[i..][1..] == src[i + 1..];
  }

  method HeaderUnfold(src: seq<byte>) returns (d: seq<byte>)
    ensures d == Unfold(src, [])
  {
    hide SkipBreaks;
    var i: nat := 0;
    d := [];
    assert src[0..] == src;
    while i < |src|
      invariant i <= |src| && Unfold(src, []) == Unfold(src[i..], d)
    {
      if !IsBreak(src[i]) {
        assert src[i..][1..] == src[i + 1..];
        d := d + [src[i]];
        i := i + 1;
      } else {
        i := PassBreaks(src, i);
        if i == |src| {
          return;
        }
        if !IsBlank(src[i]) && d != [] && !IsBlank(d[|d| - 1]) {
          d := d + [SP];
        }
      }
    }
  }

  lemma {:induction false} UnfoldHasNoBreaks(s: seq<byte>, d: seq<byte>)
    requires forall i :: 0 <= i < |d| ==> !IsBreak(d[i])
    ensures forall i :: 0 <= i < |Unfold(s, d)| ==> !IsBreak(Unfold(s, d)[i])
    decreases |s|
  {
    if s != [] {
      if !IsBreak(s[0]) {
        UnfoldHasNoBreaks(s[1..], d + [s[0]]);
      } else {
        var r := SkipBreaks(s);
        if r != [] {
          UnfoldHasNoBreaks(r, d + [SP]);
          UnfoldHasNoBreaks(r, d);
        }
      }
    }
  }

  // ---- what unfolding is ----

  predicate Unbroken(t: seq<byte>) {
    forall i :: 0 <= i < |t| ==> t[i] != 13 && t[i] != 10
  }

  predicate AllBreaks(w: seq<byte>) {
    w != [] && forall i :: 0 <= i < |w| ==> w[i] == 13 || w[i] == 10
  }

  // Line ends, and the text behind them.
  datatype Folded = Folded(run: seq<byte>, text: seq<byte>)

  predicate FoldsOk(fs: seq<Folded>) {
    forall i :: 0 <= i < |fs| ==> AllBreaks(fs[i].run) && Unbroken(fs[i].text)
  }

  function FoldedText(fs: seq<Folded>): seq<byte> {
    if fs == [] then [] else fs[0].run + fs[0].text + FoldedText(fs[1..])
  }

  // Two lines put together: with a space between them if neither brings a blank.
  function Joined(a: seq<byte>, b: seq<byte>): seq<byte> {
    if b == [] then a
    else if a == [] || a[|a| - 1] == 32 || a[|a| - 1] == 9 || b[0] == 32 || b[0] == 9 then a + b
    else a + [32] + b
  }

  function JoinedAll(a: seq<byte>, fs: seq<Folded>): seq<byte>
    decreases |fs|
  {
    if fs == [] then a else JoinedAll(Joined(a, fs[0].text), fs[1..])
  }

  // Text without line ends is taken as it is.
  lemma {:induction false} UnfoldText(t: seq<byte>, rest: seq<byte>, d: seq<byte>)
    requires Unbroken(t)
    ensures Unfold(t + rest, d) == Unfold(rest, d + t)
    decreases |t|
  {
    if t == [] {
      assert t + rest == rest && d + t == d;
    } else {
      assert (t + rest)[1..] == t[1..] + rest && (d + [t[0]]) + t[1..] == d + t;
      UnfoldText(t[1..], rest, d + [t[0]]);
    }
  }

  lemma {:induction false} SkipRun(w: seq<byte>, rest: seq<byte>)
    requires forall i :: 0 <= i < |w| ==> w[i] == 13 || w[i] == 10
    ensures SkipBreaks(w + rest) == SkipBreaks(rest)
    decreases |w|
  {
    if w == [] {
      assert w + rest == rest;
    } else {
      assert (w + rest)[1..] == w[1..] + rest;
      SkipRun(w[1..], rest);
    }
  }

  lemma UnfoldRun(w: seq<byte>, t: seq<byte>, rest: seq<byte>, d: seq<byte>)
    requires AllBreaks(w) && Unbroken(t) && (rest != [] ==> rest[0] == 13 || rest[0] == 10)
    ensures Unfold(w + t + rest, d) == Unfold(rest, Joined(d, t))
  {
    Regroup(w, t, rest);
    SkipRun(w, t + rest);
    var s := w + (t + rest);
    assert s[0] == w[0];
    if t == [] {
      assert t + rest == rest;
    } else {
      assert SkipBreaks(t + rest) == t + rest;
      UnfoldText(t, rest, d);
      UnfoldText(t, rest, d + [SP]);
    }
  }

  // A header folded in any way is unfolded to its lines put together.
  lemma {:induction false} UnfoldFolds(a: seq<byte>, fs: seq<Folded>, d: seq<byte>)
    requires Unbroken(a) && FoldsOk(fs)
    ensures Unfold(a + FoldedText(fs), d) == JoinedAll(d + a, fs)
    decreases |fs|
  {
    hide Unfold, Joined;
    UnfoldText(a, FoldedText(fs), d);
    if fs == [] {
      assert Unfold([], d + a) == d + a by { UnfoldNothing(d + a); }
    } else {
      var rest := FoldedText(fs[1..]);
      assert rest != [] ==> rest[0] == fs[1..][0].run[0];
      UnfoldRun(fs[0].run, fs[0].text, rest, d + a);
      assert [] + rest == rest && Joined(d + a, fs[0].text) + [] == Joined(d + a, fs[0].text);
      UnfoldFolds([], fs[1..], Joined(d + a, fs[0].text));
    }
  }

  lemma UnfoldNothing(d: seq<byte>)
    ensures Unfold([], d) == d
  {
  }

  // The bytes that are neither line ends nor blanks.
  function Solid(s: seq<byte>): (r: seq<byte>)
    ensures forall b :: b in r <==> b in s && b != 9 && b != 10 && b != 13 && b != 32
  {
    if s == [] then [] else
    assert s == [s[0]] + s[1..];
    (if s[0] == 9 || s[0] == 10 || s[0] == 13 || s[0] == 32 then [] else [s[0]]) + Solid(s[1..])
  }

  lemma {:induction false} SolidBoth(a: seq<byte>, b: seq<byte>)
    ensures Solid(a + b) == Solid(a) + Solid(b)
  {
    if a == [] {
      assert a + b == b;
    } else {
      assert (a + b)[1..] == a[1..] + b;
      SolidBoth(a[1..], b);
    }
  }

  lemma {:induction false} SolidSkipped(s: seq<byte>)
    ensures Solid(SkipBreaks(s)) == Solid(s)
  {
    if s != [] && IsBreak(s[0]) {
      SolidSkipped(s[1..]);
    }
  }

  lemma SolidOne(b: byte)
    ensures Solid([b]) == if b == 9 || b == 10 || b == 13 || b == 32 then [] else [b]
  {
    assert [b][1..] == [];
  }

  // Unfolding loses none of these.
  lemma {:induction false} UnfoldSolid(s: seq<byte>, d: seq<byte>)
    ensures Solid(Unfold(s, d)) == Solid(d) + Solid(s)
    decreases |s|
  {
    hide SkipBreaks;
    if s == [] {
      assert Solid(d) + [] == Solid(d);
    } else if !IsBreak(s[0]) {
      UnfoldSolid(s[1..], d + [s[0]]);
      SolidBoth(d, [s[0]]);
      SolidBoth([s[0]], s[1..]);
      assert [s[0]] + s[1..] == s;
      Regroup(Solid(d), Solid([s[0]]), Solid(s[1..]));
    } else {
      var r := SkipBreaks(s);
      SolidSkipped(s);
      if r == [] {
        assert Solid(d) + [] == Solid(d);
      } else {
        UnfoldSolid(r, d + [SP]);
        UnfoldSolid(r, d);
        SolidBoth(d, [SP]);
        SolidOne(SP);
        assert Solid(d) + [] == Solid(d);
      }
    }
  }

  // ---- tokens ----

  // The first place at or after i that is (blank: is not) a blank, or the end.
  function Skip(s: seq<byte>, i: nat, blank: bool): (j: nat)
    requires i <= |s|
    ensures i <= j <= |s| && (j < |s| ==> IsBlank(s[j]) != blank)
    ensures forall k :: i <= k < j ==> IsBlank(s[k]) == blank
    decreases |s| - i
  {
    if i < |s| && IsBlank(s[i]) == blank then Skip(s, i + 1, blank) else i
  }

  // Tokens after position i, each with the blanks before it; blanks at the end are dropped.
  function TokensFrom(s: seq<byte>, i: nat): seq<seq<byte>>
    requires i <= |s|
    decreases |s| - i
  {
    var j := Skip(s, i, true);
    if j == |s| then [] else
      var k := Skip(s, j, false);
      [s[i..k]] + TokensFrom(s, k)
  }

  // strchr(s, ' ')
  function FirstSpace(s: seq<byte>, i: nat): (j: nat)
    requires i <= |s|
    ensures i <= j <= |s| && (j < |s| ==> s[j] == SP) && SP !in s[i..j]
    decreases |s| - i
  {
    if i == |s| || s[i] == SP then i else FirstSpace(s, i + 1)
  }

  function Tokens(s: seq<byte>): (ts: seq<seq<byte>>)
    requires SP in s
  {
    var e := FirstSpace(s, 0);
    [s[..e]] + TokensFrom(s, e)
  }

  // Nothing but blanks at the end is lost.
  lemma {:induction false} TokensCover(s: seq<byte>, i: nat)
    requires i <= |s|
    ensures exists k :: i <= k <= |s| && Flatten(TokensFrom(s, i)) == s[i..k] && Skip(s, k, true) == |s|
    decreases |s| - i
  {
    hide Skip, Flatten;
    var j := Skip(s, i, true);
    if j == |s| {
      FlattenNothing();
      assert Flatten(TokensFrom(s, i)) == s[i..i];
    } else {
      var k := Skip(s, j, false);
      TokensCover(s, k);
      var k' :| k <= k' <= |s| && Flatten(TokensFrom(s, k)) == s[k..k'] && Skip(s, k', true) == |s|;
      FlattenBoth([s[i..k]], TokensFrom(s, k));
      FlattenOne(s[i..k]);
      assert s[i..k] + s[k..k'] == s[i..k'];
    }
  }

  lemma {:induction false} BlanksNotSolid(s: seq<byte>)
    requires forall i :: 0 <= i < |s| ==> IsBlank(s[i])
    ensures Solid(s) == []
  {
    if s != [] {
      BlanksNotSolid(s[1..]);
    }
  }

  // The tokens hold every byte of the header but line ends and blanks, in order.
  lemma TokensSolid(header: seq<byte>)
    requires SP in Unfold(header, [])
    ensures Solid(Flatten(Tokens(Unfold(header, [])))) == Solid(header)
  {
    hide Unfold, Flatten, TokensFrom, FirstSpace, Skip, Solid;
    var src := Unfold(header, []);
    var e := FirstSpace(src, 0);
    UnfoldSolid(header, []);
    assert Solid([]) == [] by { BlanksNotSolid([]); }
    assert [] + Solid(header) == Solid(header);
    TokensCover(src, e);
    var k :| e <= k <= |src| && Flatten(TokensFrom(src, e)) == src[e..k] && Skip(src, k, true) == |src|;
    FlattenBoth([src[..e]], TokensFrom(src, e));
    FlattenOne(src[..e]);
    assert src[..e] + src[e..k] == src[..k];
    SolidBefore(src, k);
  }

  lemma SolidBefore(src: seq<byte>, k: nat)
    requires k <= |src| && Skip(src, k, true) == |src|
    ensures Solid(src[..k]) == Solid(src)
  {
    hide Solid;
    forall i | 0 <= i < |src[k..]| ensures IsBlank(src[k..][i]) {
      assert src[k..][i] == src[k + i];
    }
    BlanksNotSolid(src[k..]);
    assert src[..k] + src[k..] == src;
    SolidBoth(src[..k], src[k..]);
    assert Solid(src[..k]) + [] == Solid(src[..k]);
  }

  // The bytes that are not white space.
  function Ink(s: seq<byte>): seq<byte> {
    if s == [] then [] else (if s[0] == 32 || 9 <= s[0] <= 13 then [] else [s[0]]) + Ink(s[1..])
  }

  lemma {:induction false} InkBoth(a: seq<byte>, b: seq<byte>)
    ensures Ink(a + b) == Ink(a) + Ink(b)
  {
    if a == [] {
      assert a + b == b;
    } else {
      assert (a + b)[1..] == a[1..] + b;
      InkBoth(a[1..], b);
    }
  }

  lemma {:induction false} SolidInk(s: seq<byte>)
    ensures Ink(Solid(s)) == Ink(s)
  {
    if s != [] {
      var first := if s[0] == 9 || s[0] == 10 || s[0] == 13 || s[0] == 32 then [] else [s[0]];
      SolidInk(s[1..]);
      InkBoth(first, Solid(s[1..]));
      assert first != [] ==> first[1..] == [];
    }
  }

  lemma {:induction false} TrimInk(t: seq<byte>)
    ensures Ink(Trim(t)) == Ink(t)
  {
    if t != [] && IsSpace(t[0]) {
      TrimInk(t[1..]);
    }
  }

  lemma TokenInk(shown: seq<byte>, afterEncoded: bool, t: seq<byte>, limit: nat)
    ensures Ink(ShowToken(shown, afterEncoded, t, limit)) == Ink(shown) + Ink(t)
  {
    hide Trim;
    TrimInk(t);
    InkBoth(shown, t);
    InkBoth(shown, Trim(t));
    InkBoth(shown, [SP]);
    InkBoth(shown + [SP], Trim(t));
    assert [SP][1..] == [] && Ink([SP]) == [] && Ink(shown) + [] == Ink(shown);
  }

  // What a reader should be shown holds every byte of the tokens but white space.
  lemma {:induction false} ExpectedInk(ts: seq<seq<byte>>, limit: nat)
    ensures Ink(Expected(ts, limit)) == Ink(Flatten(ts))
    decreases |ts|
  {
    hide ShowToken, LastEncoded, Ink, Flatten;
    if ts == [] {
      assert Flatten(ts) == [] by { FlattenNothing(); }
    } else {
      var most, t := ts[..|ts| - 1], ts[|ts| - 1];
      assert ts == most + [t];
      ExpectedInk(most, limit);
      TokenInk(Expected(most, limit), LastEncoded(most, limit), t, limit);
      FlattenBoth(most, [t]);
      FlattenOne(t);
      InkBoth(Flatten(most), t);
    }
  }

  // A text made of such tokens is cut into them again.
  predicate TokenShaped(t: seq<byte>) {
    exists n :: 1 <= n < |t| && BlankThenWord(t, n)
  }

  predicate BlankThenWord(t: seq<byte>, n: nat)
    requires n <= |t|
  {
    forall k :: 0 <= k < |t| ==> (t[k] == 32 || t[k] == 9) == (k < n)
  }

  lemma {:induction false} SkipIs(s: seq<byte>, i: nat, blank: bool, j: nat)
    requires i <= j <= |s| && (forall k :: i <= k < j ==> IsBlank(s[k]) == blank) && (j < |s| ==> IsBlank(s[j]) != blank)
    ensures Skip(s, i, blank) == j
    decreases j - i
  {
    if i < j {
      SkipIs(s, i + 1, blank, j);
    }
  }

  lemma {:induction false} TokensOfFlat(a: seq<byte>, ts: seq<seq<byte>>)
    requires forall i :: 0 <= i < |ts| ==> TokenShaped(ts[i])
    ensures TokensFrom(a + Flatten(ts), |a|) == ts
    decreases |ts|
  {
    hide Skip, BlankThenWord, Flatten, TokensFrom;
    var s := a + Flatten(ts);
    if ts == [] {
      assert Flatten(ts) == [] by { FlattenNothing(); }
      NoTokens(s);
    } else {
      var t, rest := ts[0], Flatten(ts[1..]);
      FlatStarts(ts[1..]);
      assert ts == [t] + ts[1..];
      FlattenBoth([t], ts[1..]);
      FlattenOne(t);
      TokensOfFlat(a + t, ts[1..]);
      assert a + (t + rest) == a + t + rest;
      TokenFirst(a, t, rest);
    }
  }

  lemma NoTokens(s: seq<byte>)
    ensures TokensFrom(s, |s|) == []
  {
  }

  lemma TokenFirst(a: seq<byte>, t: seq<byte>, rest: seq<byte>)
    requires TokenShaped(t) && (rest != [] ==> IsBlank(rest[0]))
    ensures TokensFrom(a + t + rest, |a|) == [t] + TokensFrom(a + t + rest, |a + t|)
  {
    hide Skip;
    var s, n :| s == a + t + rest && 1 <= n < |t| && BlankThenWord(t, n);
    SkipIs(s, |a|, true, |a| + n);
    SkipIs(s, |a| + n, false, |a| + |t|);
    assert s[|a|..|a| + |t|] == t;
  }

  lemma FlatStarts(ts: seq<seq<byte>>)
    requires forall i :: 0 <= i < |ts| ==> TokenShaped(ts[i])
    ensures Flatten(ts) != [] ==> IsBlank(Flatten(ts)[0])
  {
    if ts != [] {
      var n :| 1 <= n < |ts[0]| && BlankThenWord(ts[0], n);
    }
  }

  lemma {:induction false} UnfoldPlain(s: seq<byte>, d: seq<byte>)
    requires forall i :: 0 <= i < |s| ==> !IsBreak(s[i])
    ensures Unfold(s, d) == d + s
    decreases |s|
  {
    if s == [] {
      assert d + s == d;
    } else {
      UnfoldPlain(s[1..], d + [s[0]]);
      assert (d + [s[0]]) + s[1..] == d + s;
    }
  }

  // Every token after the first starts with a blank and ends with something else; none holds
  // what the text does not.
  lemma {:induction false} TokensShape(s: seq<byte>, i: nat)
    requires i <= |s| && (i < |s| ==> IsBlank(s[i]))
    ensures forall t :: t in TokensFrom(s, i) ==> Spaced(t)
    ensures NL !in s ==> forall t :: t in TokensFrom(s, i) ==> NL !in t
    decreases |s| - i
  {
    var j := Skip(s, i, true);
    if j < |s| {
      var k := Skip(s, j, false);
      assert s[i..k][k - i - 1] == s[k - 1];
      TokensShape(s, k);
    }
  }

  // ---- UTF-8 ----

  // How many bytes the character takes that starts with b; none starts so when 0.
  function Lead(b: byte): nat {
    if b < 0x80 then 1
    else if 0xc0 <= b < 0xe0 then 2
    else if 0xe0 <= b < 0xf0 then 3
    else if 0xf0 <= b < 0xf8 then 4
    else 0
  }

  // charset_is_valid_utf8
  predicate Utf8(s: seq<byte>) {
    s == [] ||
    var n := Lead(s[0]);
    n >= 1 && n <= |s| && (forall k :: 1 <= k < n ==> 0x80 <= s[k] < 0xc0) && Utf8(s[n..])
  }

  // The first character and the rest.
  lemma Utf8Step(s: seq<byte>)
    requires Utf8(s) && s != []
    ensures var n := Lead(s[0]);
      1 <= n <= 4 && n <= |s| && Utf8(s[n..]) && forall k :: 1 <= k < n ==> IsContinuation(s[k])
  {
  }

  // Cut where a character starts.
  lemma {:induction false} Utf8Split(s: seq<byte>, m: nat)
    requires Utf8(s) && m <= |s| && (m < |s| ==> !IsContinuation(s[m]))
    ensures Utf8(s[..m]) && Utf8(s[m..])
    decreases |s|
  {
    hide Utf8, Lead;
    if m == 0 {
      assert s[0..] == s;
      assert Utf8(s[..0]) by { Utf8Nothing(); }
    } else {
      var n := Lead(s[0]);
      Utf8Step(s);
      assert m >= n;
      Utf8Split(s[n..], m - n);
      assert s[n..][m - n..] == s[m..];
      assert s[..m][n..] == s[n..][..m - n];
      Utf8Grows(s[..m]);
    }
  }

  lemma Utf8Nothing()
    ensures Utf8([])
  {
  }

  lemma Utf8Grows(s: seq<byte>)
    requires s != [] && var n := Lead(s[0]);
      1 <= n <= |s| && Utf8(s[n..]) && forall k :: 1 <= k < n ==> IsContinuation(s[k])
    ensures Utf8(s)
  {
  }

  lemma {:induction false} Utf8Join(a: seq<byte>, b: seq<byte>)
    requires Utf8(a) && Utf8(b)
    ensures Utf8(a + b)
    decreases |a|
  {
    hide Utf8, Lead;
    if a == [] {
      assert a + b == b;
    } else {
      var n := Lead(a[0]);
      Utf8Step(a);
      Utf8Join(a[n..], b);
      assert (a + b)[n..] == a[n..] + b;
      assert forall k :: 0 <= k < n ==> (a + b)[k] == a[k];
      Utf8Grows(a + b);
    }
  }

  // What is left of UTF-8 after UTF-8 is UTF-8.
  lemma {:induction false} Utf8Rest(a: seq<byte>, b: seq<byte>)
    requires Utf8(a) && Utf8(a + b)
    ensures Utf8(b)
    decreases |a|
  {
    hide Utf8, Lead;
    if a == [] {
      assert a + b == b;
    } else {
      var n := Lead(a[0]);
      Utf8Step(a);
      Utf8Step(a + b);
      assert (a + b)[0] == a[0] && (a + b)[n..] == a[n..] + b;
      Utf8Rest(a[n..], b);
    }
  }

  lemma {:induction false} ContinuationRun(u: seq<byte>, v: seq<byte>)
    requires (forall i :: 0 <= i < |u| ==> IsContinuation(u[i])) && Tail(v) == 0
    ensures Tail(u + v) == |u|
  {
    if u == [] {
      assert u + v == v;
    } else {
      assert (u + v)[1..] == u[1..] + v;
      ContinuationRun(u[1..], v);
    }
  }

  lemma SliceJoin(s: seq<byte>, i: nat, n: nat)
    requires i <= n <= |s|
    ensures s[i..] == s[i..n] + s[n..]
  {
  }

  // In UTF-8 no character leaves more than three continuation bytes in a row, and no
  // text starts with one.
  lemma {:induction false} Utf8ShortRuns(s: seq<byte>)
    requires Utf8(s)
    ensures ShortRuns(s) && Tail(s) == 0
    decreases |s|
  {
    hide Utf8, Lead, Tail, ShortRuns;
    if s == [] {
      NoRun(s);
    } else {
      var n := Lead(s[0]);
      Utf8Step(s);
      Utf8ShortRuns(s[n..]);
      NotContinued(s);
      forall i | 0 <= i <= |s|
        ensures Tail(s[i..]) <= 3
      {
        TailInside(s, n, i);
      }
      AllShort(s);
    }
  }

  lemma NoRun(s: seq<byte>)
    requires s == []
    ensures Tail(s) == 0 && ShortRuns(s)
  {
  }

  lemma NotContinued(s: seq<byte>)
    requires s != [] && Lead(s[0]) >= 1
    ensures Tail(s) == 0
  {
  }

  lemma AllShort(s: seq<byte>)
    requires forall i :: 0 <= i <= |s| ==> Tail(s[i..]) <= 3
    ensures ShortRuns(s)
  {
  }

  // From any place in the first character, or after it.
  lemma TailInside(s: seq<byte>, n: nat, i: nat)
    requires 1 <= n <= 4 && n <= |s| && i <= |s| && Tail(s) == 0
    requires (forall k :: 1 <= k < n ==> IsContinuation(s[k])) && ShortRuns(s[n..]) && Tail(s[n..]) == 0
    ensures Tail(s[i..]) <= 3
  {
    hide Tail;
    if i >= n {
      assert s[i..] == s[n..][i - n..];
    } else if i >= 1 {
      ContinuationRun(s[i..n], s[n..]);
      SliceJoin(s, i, n);
    } else {
      assert s[0..] == s;
    }
  }

  lemma EightBitIsLong(s: seq<byte>)
    requires Utf8(s) && !SevenBit(s)
    ensures |s| >= 2
  {
    assert s != [] ==> 1 <= Lead(s[0]) <= |s|;
  }

  lemma {:induction false} SkipBreaksUtf8(s: seq<byte>)
    requires Utf8(s)
    ensures Utf8(SkipBreaks(s))
  {
    if s != [] && IsBreak(s[0]) {
      SkipBreaksUtf8(s[1..]);
    }
  }

  lemma {:induction false} TrimUtf8(s: seq<byte>)
    requires Utf8(s)
    ensures Utf8(Trim(s))
  {
    if s != [] && IsSpace(s[0]) {
      TrimUtf8(s[1..]);
    }
  }

  lemma {:induction false} UnfoldUtf8(s: seq<byte>, d: seq<byte>)
    requires Utf8(d + s)
    ensures Utf8(Unfold(s, d))
    decreases |s|
  {
    if s == [] {
      assert d + s == d;
    } else if !IsBreak(s[0]) {
      assert (d + [s[0]]) + s[1..] == d + s;
      UnfoldUtf8(s[1..], d + [s[0]]);
    } else {
      assert (d + s)[..|d|] == d && (d + s)[|d|..] == s;
      Utf8Split(d + s, |d|);
      SkipBreaksUtf8(s);
      var r := SkipBreaks(s);
      if r != [] {
        Utf8Join(d, r);
        SpaceIsUtf8();
        Utf8Join(d, [SP]);
        Utf8Join(d + [SP], r);
        if !IsBlank(r[0]) && d != [] && !IsBlank(d[|d| - 1]) {
          UnfoldUtf8(r, d + [SP]);
        } else {
          UnfoldUtf8(r, d);
        }
      }
    }
  }

  lemma SpaceIsUtf8()
    ensures Utf8([SP])
  {
    assert [SP][1..] == [];
  }

  // Tokens of UTF-8 text are UTF-8: they are cut at blanks.
  lemma {:induction false} TokensUtf8(s: seq<byte>, i: nat)
    requires i <= |s| && Utf8(s[i..])
    ensures forall t :: t in TokensFrom(s, i) ==> Utf8(t)
    decreases |s| - i
  {
    hide Utf8, Skip;
    var j := Skip(s, i, true);
    if j < |s| {
      var k := Skip(s, j, false);
      assert k < |s| ==> s[i..][k - i] == s[k];
      Utf8Split(s[i..], k - i);
      assert s[i..][..k - i] == s[i..k] && s[i..][k - i..] == s[k..];
      TokensUtf8(s, k);
    }
  }
}
