// Tokens of a line as xstrtok cuts them: words between blanks, and quoted strings.
module StrTok {
  import opened Common

  predicate IsBlank(c: char) {
    c == ' ' || c == '\t' || c == '\r' || c == '\n'
  }

  function SkipBlanks(s: string): (r: string)
    ensures |r| <= |s| && (r != "" ==> !IsBlank(r[0]))
  {
    if s != "" && IsBlank(s[0]) then SkipBlanks(s[1..]) else s
  }

  function WordEnd(s: string): (k: nat)
    ensures k <= |s| && (forall i :: 0 <= i < k ==> !IsBlank(s[i])) && (k < |s| ==> IsBlank(s[k]))
  {
    if s == "" || IsBlank(s[0]) then 0 else 1 + WordEnd(s[1..])
  }

  predicate EscapedQuote(s: string) {
    |s| >= 2 && s[0] == '\\' && s[1] == '"'
  }

  // Where the text of a quoted token ends: its closing quote, or the end of the line.
  function Close(s: string): (k: nat)
    ensures k <= |s|
  {
    if s == "" || s[0] == '"' then 0
    else if EscapedQuote(s) then 2 + Close(s[2..])
    else 1 + Close(s[1..])
  }

  function Unescape(s: string): (r: string)
    ensures |r| <= |s|
  {
    if s == "" then ""
    else if EscapedQuote(s) then ['"'] + Unescape(s[2..])
    else [s[0]] + Unescape(s[1..])
  }

  // A token, if there is one, and what is left for the next call (None is a null *lasts).
  datatype Cut = Cut(tok: Option<string>, lasts: Option<string>)

  function Next(s: string): (c: Cut)
    ensures c.tok.Some? && c.lasts.Some? ==> |c.lasts.value| < |s|
  {
    var t := SkipBlanks(s);
    if t == "" then Cut(None, None)
    else if t[0] == '"' then
      var body := t[1..];
      var e := Close(body);
      Cut(Some(Unescape(body[..e])), Some(if e < |body| then body[e + 1..] else ""))
    else
      var w := WordEnd(t);
      Cut(Some(t[..w]), if w < |t| then Some(SkipBlanks(t[w + 1..])) else None)
  }

  function Tokens(s: string): seq<string>
    decreases |s|
  {
    var c := Next(s);
    if c.tok.None? then []
    else [c.tok.value] + (if c.lasts.None? then [] else Tokens(c.lasts.value))
  }

  // strtok_r_ext with its saved position.
  class Tokenizer {
    var lasts: Option<string>

    // The tokens still to come.
    ghost function Pending(): seq<string>
      reads this
    {
      if lasts.None? then [] else Tokens(lasts.value)
    }

    constructor (line: string)
      ensures Pending() == Tokens(line)
    {
      lasts := Some(line);
    }

    method NextToken() returns (tok: Option<string>)
      modifies this
      ensures tok.None? <==> old(Pending()) == []
      ensures tok.Some? ==> old(Pending()) == [tok.value] + Pending()
      ensures tok.None? ==> Pending() == []
    {
      if lasts.None? {
        return None;
      }
      hide Close, Unescape, WordEnd;
      var c := CutToken(lasts.value);
      lasts := c.lasts;
      return c.tok;
    }
  }

  method CutToken(s: string) returns (c: Cut)
    ensures c == Next(s)
  {
    hide SkipBlanks, Close, Unescape, WordEnd;
    assert s[0..] == s;
    var i := SkipFrom(s, 0);
    if i == |s| {
      return Cut(None, None);
    }
    assert SkipBlanks(s)[0] == s[i];
    if s[i] == '"' {
      var j := CloseFrom(s, i + 1);
      var text := UnescapeRange(s, i + 1, j);
      assert s[i..][1..] == s[i + 1..] && s[i + 1..][..j - (i + 1)] == s[i + 1..j];
      assert j < |s| ==> s[i + 1..][j - i..] == s[j + 1..];
      return Cut(Some(text), Some(if j < |s| then s[j + 1..] else ""));
    }
    var j := WordFrom(s, i);
    assert s[i..][..j - i] == s[i..j];
    if j < |s| {
      var k := SkipFrom(s, j + 1);
      assert s[i..][j - i + 1..] == s[j + 1..];
      return Cut(Some(s[i..j]), Some(s[k..]));
    }
    return Cut(Some(s[i..j]), None);
  }

  method WordFrom(s: string, i: nat) returns (j: nat)
    requires i < |s| && !IsBlank(s[i])
    ensures i < j <= |s| && j - i == WordEnd(s[i..])
  {
    assert s[i..][1..] == s[i + 1..];
    j := i + 1;
    while j < |s| && !IsBlank(s[j])
      invariant i < j <= |s|
      invariant WordEnd(s[i..]) == (j - i) + WordEnd(s[j..])
    {
      assert s[j..][1..] == s[j + 1..];
      j := j + 1;
    }
  }

  method SkipFrom(s: string, i: nat) returns (j: nat)
    requires i <= |s|
    ensures i <= j <= |s| && s[j..] == SkipBlanks(s[i..])
  {
    j := i;
    while j < |s| && IsBlank(s[j])
      invariant i <= j <= |s|
      invariant SkipBlanks(s[j..]) == SkipBlanks(s[i..])
    {
      assert s[j..][1..] == s[j + 1..];
      j := j + 1;
    }
  }

  method CloseFrom(s: string, i: nat) returns (j: nat)
    requires i <= |s|
    ensures i <= j <= |s| && j - i == Close(s[i..])
  {
    j := i;
    while j < |s|
      invariant i <= j <= |s|
      invariant Close(s[i..]) == (j - i) + Close(s[j..])
    {
      assert s[j..][1..] == s[j + 1..];
      if j + 1 < |s| && s[j] == '\\' && s[j + 1] == '"' {
        assert s[j..][2..] == s[j + 2..];
        j := j + 1;
      } else if s[j] == '"' {
        break;
      }
      j := j + 1;
    }
  }

  method UnescapeRange(s: string, i: nat, j: nat) returns (text: string)
    requires i <= j <= |s|
    ensures text == Unescape(s[i..j])
  {
    hide Unescape;
    text := "";
    var k := i;
    while k < j
      invariant i <= k <= j
      invariant text + Unescape(s[k..j]) == Unescape(s[i..j])
    {
      UnescapeStep(s, k, j);
      ghost var was := text;
      if k + 1 < j && s[k] == '\\' && s[k + 1] == '"' {
        k := k + 1;
      }
      text := text + [s[k]];
      k := k + 1;
      assert was + ([s[k - 1]] + Unescape(s[k..j])) == text + Unescape(s[k..j]);
    }
    assert Unescape(s[j..j]) == "" && text + "" == text by { UnescapeStep(s, j, j); }
  }

  lemma UnescapeStep(s: string, k: nat, j: nat)
    requires k <= j <= |s|
    ensures k == j ==> Unescape(s[k..j]) == ""
    ensures k < j ==>
      var at := if k + 1 < j && s[k] == '\\' && s[k + 1] == '"' then k + 1 else k;
      Unescape(s[k..j]) == [s[at]] + Unescape(s[at + 1..j])
  {
    assert k < j ==> s[k..j][1..] == s[k + 1..j];
    assert k + 1 < j ==> s[k..j][2..] == s[k + 2..j];
  }

  // ---- what a writer must know to be read back ----

  predicate IsWord(w: string) {
    w != "" && w[0] != '"' && forall i :: 0 <= i < |w| ==> !IsBlank(w[i])
  }

  lemma {:induction false} WordEndIs(w: string, post: string)
    requires (forall i :: 0 <= i < |w| ==> !IsBlank(w[i])) && (post == "" || IsBlank(post[0]))
    ensures WordEnd(w + post) == |w|
  {
    if w == "" {
      assert w + post == post;
    } else {
      assert (w + post)[1..] == w[1..] + post;
      WordEndIs(w[1..], post);
    }
  }

  lemma SameSkipped(a: string, b: string)
    requires SkipBlanks(a) == SkipBlanks(b)
    ensures Tokens(a) == Tokens(b)
  {
    hide SkipBlanks;
  }

  // A word with a blank after it is the next token; blanks alone are none.
  lemma WordReadBack(w: string, post: string)
    requires IsWord(w)
    ensures Tokens(w + " " + post) == [w] + Tokens(post)
  {
    var s := w + " " + post;
    assert s == w + (" " + post) && s[0] == w[0];
    WordEndIs(w, " " + post);
    assert s[..|w|] == w && s[|w| + 1..] == post;
    SameSkipped(SkipBlanks(post), post);
  }

  // A space, a tab, a line feed or a carriage return ends a word; such before it are skipped.
  predicate IsSeparator(c: char) {
    c == ' ' || c == '\t' || c == '\n' || c == '\r'
  }

  lemma WordBetween(pre: string, w: string, sep: char, post: string)
    requires (forall i :: 0 <= i < |pre| ==> IsSeparator(pre[i])) && IsSeparator(sep)
    requires w != "" && w[0] != '"' && forall i :: 0 <= i < |w| ==> !IsSeparator(w[i])
    ensures Tokens(pre + w + [sep] + post) == [w] + Tokens(post)
  {
    var s := w + [sep] + post;
    assert s == w + ([sep] + post) && s[0] == w[0];
    Regroup(pre, w, [sep]);
    assert pre + w + [sep] + post == pre + s;
    SkippedAll(pre, s);
    SameSkipped(pre + s, s);
    WordEndIs(w, [sep] + post);
    assert s[..|w|] == w && s[|w| + 1..] == post;
    SameSkipped(SkipBlanks(post), post);
  }

  lemma {:induction false} SkippedAll(pre: string, s: string)
    requires forall i :: 0 <= i < |pre| ==> IsSeparator(pre[i])
    ensures SkipBlanks(pre + s) == SkipBlanks(s)
  {
    if pre == "" {
      assert pre + s == s;
    } else {
      assert (pre + s)[1..] == pre[1..] + s;
      SkippedAll(pre[1..], s);
    }
  }

  lemma LastWordReadBack(w: string)
    requires IsWord(w)
    ensures Tokens(w) == [w]
  {
    assert w + "" == w;
    WordEndIs(w, "");
    assert w[..|w|] == w;
  }

  lemma BlankReadBack(post: string)
    ensures Tokens(" " + post) == Tokens(post)
  {
    hide Tokens;
    assert (" " + post)[1..] == post;
    SameSkipped(" " + post, post);
  }

  // A text survives being put between quotes.
  predicate Quotable(d: string) {
    '"' !in d && (d != "" ==> d[|d| - 1] != '\\')
  }

  function Quoted(d: string): string { "\"" + d + "\"" }

  lemma {:induction false} CloseAt(d: string, post: string)
    requires Quotable(d)
    ensures Close(d + "\"" + post) == |d| && Unescape(d) == d
  {
    var s := d + "\"" + post;
    if d != "" {
      assert s[1..] == d[1..] + "\"" + post;
      assert |d| >= 2 ==> s[1] == d[1];
      assert forall c :: c in d[1..] ==> c in d;
      CloseAt(d[1..], post);
      assert [d[0]] + d[1..] == d;
    }
  }

  // If a text read to its end, and to its end only, comes back the same, it held no quote.
  lemma {:induction false} CloseOnlyThere(d: string, post: string)
    requires Close(d + "\"" + post) == |d| && |Unescape(d)| == |d|
    ensures Quotable(d)
  {
    var s := d + "\"" + post;
    if d != "" {
      assert s[0] == d[0];
      assert s[1..] == d[1..] + "\"" + post;
      assert s[1] == if |d| >= 2 then d[1] else '"';
      if !EscapedQuote(d) {
        CloseOnlyThere(d[1..], post);
        assert [d[0]] + d[1..] == d;
      }
    }
  }

  // A description is read back exactly when it holds no quote and does not end in a backslash.
  lemma QuotedReadBack(d: string, post: string)
    ensures Next(Quoted(d) + post) == Cut(Some(d), Some(post)) <==> Quotable(d)
  {
    var s := Quoted(d) + post;
    var body := d + "\"" + post;
    assert s[1..] == body;
    var e := Close(body);
    if Quotable(d) {
      CloseAt(d, post);
      assert body[..e] == d && body[e + 1..] == post;
    } else if Next(s) == Cut(Some(d), Some(post)) {
      if e < |body| {
        assert |body[e + 1..]| == |post|;
        assert body[..e] == d;
        CloseOnlyThere(d, post);
      } else {
        assert post == "" && body == d + "\"" && body[..e] == body;
        Unclosed(d);
      }
    }
  }

  // Without a closing quote the quote itself would be in the token.
  lemma {:induction false} Unclosed(d: string)
    ensures Close(d + "\"") == |d| + 1 ==> Unescape(d + "\"") != d
  {
    var s := d + "\"";
    if d != "" {
      assert s[1..] == d[1..] + "\"";
      if EscapedQuote(s) {
        assert Unescape(s)[0] == '"' != d[0];
      } else {
        Unclosed(d[1..]);
        assert Unescape(s) == [d[0]] + Unescape(s[1..]);
        assert [d[0]] + d[1..] == d;
        assert Unescape(s)[1..] == Unescape(s[1..]);
      }
    }
  }

  lemma QuotedToken(d: string, post: string)
    requires Quotable(d)
    ensures Tokens(Quoted(d) + " " + post) == [d] + Tokens(post)
  {
    var rest := " " + post;
    assert Quoted(d) + " " + post == Quoted(d) + rest;
    QuotedReadBack(d, rest);
    BlankReadBack(post);
  }

  // ---- quotes inside quotes ----

  // Each quote with a backslash before it.
  function Escaped(d: string): string {
    if d == "" then "" else (if d[0] == '"' then "\\\"" else [d[0]]) + Escaped(d[1..])
  }

  lemma {:induction false} EscapedText(d: string, post: string)
    requires d == "" || d[|d| - 1] != '\\'
    ensures Close(Escaped(d) + "\"" + post) == |Escaped(d)| && Unescape(Escaped(d)) == d
  {
    var s := Escaped(d) + "\"" + post;
    if d == "" {
      assert s[0] == '"';
    } else {
      var first, more := if d[0] == '"' then "\\\"" else [d[0]], Escaped(d[1..]);
      EscapedText(d[1..], post);
      assert s == first + (more + "\"" + post);
      assert s[|first|..] == more + "\"" + post && Escaped(d)[|first|..] == more;
      if d[0] != '"' {
        assert |d| > 1 ==> more[0] == (if d[1] == '"' then '\\' else d[1]) && s[1] == more[0];
      }
    }
  }

  // A text put between quotes so is read back, quotes and all, when it does not end in a backslash.
  lemma EscapedReadBack(d: string, post: string)
    requires d == "" || d[|d| - 1] != '\\'
    ensures Tokens("\"" + Escaped(d) + "\"" + post) == [d] + Tokens(post)
  {
    hide Close, Unescape, Escaped;
    EscapedText(d, post);
    var s := "\"" + Escaped(d) + "\"" + post;
    var body := Escaped(d) + "\"" + post;
    assert s[0] == '"' && s[1..] == body;
    assert body[..|Escaped(d)|] == Escaped(d) && body[|Escaped(d)| + 1..] == post;
  }
}
