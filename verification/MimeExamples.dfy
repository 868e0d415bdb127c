// Headers at which the encoder of mime.c does not do what it is for: a byte is lost, an empty
// encoded-word is written, a character is split, a token is read as something else.
module MimeExamples {
  import opened Common
  import opened Base64
  import opened MimeText
  import opened MimeTokens
  import opened MimeReader
  import opened MimeHeader

  // A header that loses a byte: a word of 43 bytes in a single-byte charset of six letters
  // fills its line with one byte left over, which the one-letter word after it overwrites.
  method LostByte(charset: seq<byte>, a: byte, b: byte) returns (dst: seq<byte>)
    requires IsName(charset) && |charset| == 6 && a >= 0x80 && b >= 0x80
    ensures |Read(dst)| + 1 == |LosingHeader(a, b)|
  {
    hide WordState.Between, WordState.Now, WordState.Spoiled, WordState.Hollow, WordState.Plains,
      WordState.OpenEmpty, IsName, LosingHeader, Read, Shown, WordsOk, AnyMarked, AnyMisread;
    var state := LoseByte(charset, a, b);
    dst := state.End();
    MisreadIs(state.segs);
    ReaderAgrees(B, charset, state.segs, dst);
  }

  // Its first two tokens, up to the end of the line,
  method FillALine(charset: seq<byte>, a: byte, b: byte) returns (state: WordState)
    requires IsName(charset) && |charset| == 6 && a >= 0x80 && b >= 0x80
    ensures fresh(state) && state.Between() && state.out != [] && !state.Spoiled() && !state.Hollow() && state.isMime
    ensures state.e == B && state.charset == charset && state.limit == LIMIT
    ensures var ts := LosingTokens(a, b);
      && |ts| == 3 && state.Placed(2, Trim(ts[1]))
      && state.Now() + state.rem
         == ShowToken(ShowToken([], false, ts[0], LIMIT), !StaysPlain(ts[0], LIMIT), ts[1], LIMIT)
  {
    hide Growable, WordState.Ok, WordState.Now, WordState.Spoiled, ShowToken, IsName, Spaced, SevenBit, Trim,
      Leftover, WordState.AfterWord, WordState.OnThisLine, WordState.Placed, WordState.Overwrites, TokenMisread,
      WordState.Hollow, WordState.Plains, WordState.OpenEmpty, WordState.ClosesEmpty, LosingTokens;
    LosingShape(a, b);
    var x, y := LosingTokens(a, b)[0], LosingTokens(a, b)[1];
    assert NL !in charset by { NameHasNoMark(charset); }
    state := new WordState(B, charset, LIMIT);
    assert state.Now() + state.rem == [];
    PlainClosesNothing(state, x);
    state.WordEnc(x);
    LineStands(state, Trim(y), y, [SP, b]);
    state.WordEnc(y);
    InMime(state);
  }

  // and the third.
  method LoseByte(charset: seq<byte>, a: byte, b: byte) returns (state: WordState)
    requires IsName(charset) && |charset| == 6 && a >= 0x80 && b >= 0x80
    ensures fresh(state) && state.Between() && state.out != []
    ensures !state.Spoiled() && !state.Hollow() && !state.OpenEmpty()
    ensures state.e == B && state.charset == charset
    ensures |state.Now() + state.rem| + 1 == |LosingHeader(a, b)|
  {
    hide Growable, Expected, WordState.Ok, WordState.Now, WordState.Spoiled, ShowToken, LastEncoded, IsName,
      Spaced, SevenBit, Trim, Leftover, WordState.AfterWord, WordState.OnThisLine, WordState.Placed,
      WordState.Overwrites, LosingHeader, TokenMisread, WordState.Hollow, WordState.Plains, WordState.OpenEmpty,
      WordState.ClosesEmpty, LosingTokens;
    var ts := LosingTokens(a, b);
    LosingShape(a, b);
    LosingIsHeader(a, b);
    state := FillALine(charset, a, b);
    LineStands(state, Trim(ts[1]), ts[1], ts[2]);
    InMime(state);
    ghost var now, rem := state.Now(), state.rem;
    state.WordEnc(ts[2]);
    LosingExpected(ts[0], ts[1], ts[2]);
    SameGrowth(now + rem, now + rem, true, ts[2], LIMIT);
  }

  lemma LosingExpected(x: seq<byte>, y: seq<byte>, z: seq<byte>)
    ensures Expected([x, y, z], LIMIT) ==
            var first := ShowToken(ShowToken([], false, x, LIMIT), !StaysPlain(x, LIMIT), y, LIMIT);
            ShowToken(first, !StaysPlain(y, LIMIT), z, LIMIT)
  {
    hide Expected, LastEncoded, StaysPlain;
    ExpectedNothing(LIMIT);
    ExpectedSnoc([], x, LIMIT);
    ExpectedSnoc([x], y, LIMIT);
    ExpectedSnoc([x, y], z, LIMIT);
    assert [] + [x] == [x] && [x] + [y] == [x, y] && [x, y] + [z] == [x, y, z];
  }

  function LosingHeader(a: byte, b: byte): seq<byte> {
    Flatten(LosingTokens(a, b))
  }

  // It is one: cut into these tokens, with nothing to unfold.
  lemma LosingIsHeader(a: byte, b: byte)
    requires a >= 0x80 && b >= 0x80
    ensures var h := LosingHeader(a, b);
      && Unfold(h, []) == h && SP in h && Tokens(h) == LosingTokens(a, b)
      && Expected(LosingTokens(a, b), LIMIT) == h
  {
    hide Expected, Unfold, Flatten, Tokens, SevenBit;
    LosingShape(a, b);
    ExampleIsHeader(LosingTokens(a, b));
  }

  // A space and a word.
  predicate SpaceThenWord(t: seq<byte>) {
    |t| >= 2 && t[0] == SP && forall i :: 1 <= i < |t| ==> !IsSpace(t[i])
  }

  // "X:" and words: those in 7 bits are short.
  predicate IsExample(ts: seq<seq<byte>>) {
    && |ts| >= 2 && ts[0] == ['X' as int, ':' as int]
    && forall i :: 1 <= i < |ts| ==> SpaceThenWord(ts[i]) && (!SevenBit(ts[i]) || StaysPlain(ts[i], LIMIT))
  }

  // Such tokens are those of the header that they make up, and it is to be shown whole.
  lemma ExampleIsHeader(ts: seq<seq<byte>>)
    requires IsExample(ts)
    ensures var h := Flatten(ts);
      Unfold(h, []) == h && SP in h && Tokens(h) == ts && Expected(ts, LIMIT) == h
  {
    hide Unfold, Flatten, TokensFrom, FirstSpace, Expected, SevenBit;
    var h := Flatten(ts);
    forall i | 1 <= i < |ts| ensures TokenShaped(ts[i]) && Spaced(ts[i]) && SingleSpaced(ts[i]) {
      assert BlankThenWord(ts[i], 1);
    }
    assert [ts[0]] + ts[1..] == ts;
    FlattenFirst(ts);
    FlattenFirst(ts[1..]);
    assert h[2] == SP && h[..2] == ts[0];
    FirstSpaceIs(h, 0, 2);
    TokensOfFlat(ts[0], ts[1..]);
    FlattenUnbroken(ts);
    UnfoldPlain(h, []);
    assert [] + h == h;
    assert StaysPlain(ts[0], LIMIT) by { assert SevenBit(ts[0]) by { XIsPlain(); } }
    ExpectedIsSource(ts, LIMIT);
  }

  lemma XIsPlain()
    ensures SevenBit(['X' as int, ':' as int])
  {
  }

  lemma FlattenFirst(ts: seq<seq<byte>>)
    requires ts != []
    ensures Flatten(ts) == ts[0] + Flatten(ts[1..])
  {
  }

  lemma {:induction false} FlattenUnbroken(ts: seq<seq<byte>>)
    requires forall i, k :: 0 <= i < |ts| && 0 <= k < |ts[i]| ==> !IsBreak(ts[i][k])
    ensures forall k :: 0 <= k < |Flatten(ts)| ==> !IsBreak(Flatten(ts)[k])
  {
    if ts != [] {
      FlattenUnbroken(ts[1..]);
    }
  }

  lemma {:induction false} FirstSpaceIs(s: seq<byte>, i: nat, j: nat)
    requires i <= j < |s| && s[j] == SP && SP !in s[i..j]
    ensures FirstSpace(s, i) == j
    decreases j - i
  {
    if i < j {
      assert s[i] in s[i..j] && forall x :: x in s[i + 1..j] ==> x in s[i..j];
      FirstSpaceIs(s, i + 1, j);
    }
  }

  // A header that makes the encoder write an empty encoded-word, with either encoding: a word of
  // 52 letters leaves room on its line to open an encoded-word in UTF-8 and for one quantum, but
  // not for what is kept free behind it.
  method WriteEmptyWord(e: Encoding, charset: seq<byte>) returns (dst: seq<byte>, ghost segs: seq<Seg>)
    requires IsUtf8Name(charset)
    ensures dst == Render(e, charset, segs) + [NL] && Word([]) in segs
    ensures Parse(NoFolds(dst)) != Intended(e, charset, segs)
  {
    hide Growable, WordState.Ok, WordState.Now, WordState.Spoiled, WordState.OpenEmpty, WordState.ClosesEmpty,
      WordState.AfterWord, ShowToken, Spaced, SevenBit, Trim, TokenMisread, WordsOk, AnyMarked, AnyMisread,
      IsUtf8Name, Parse, Intended, NoFolds, Render, WordState.TokenOk, IsName, EmptyingTokens;
    var ts := EmptyingTokens();
    EmptyingShape(e, charset);
    var state := new WordState(e, charset, LIMIT);
    TokenIsOk(state, ts[0]);
    state.WordEnc(ts[0]);
    TokenIsOk(state, ts[1]);
    InMime(state);
    state.WordEnc(ts[1]);
    TokenIsOk(state, ts[2]);
    InMime(state);
    OpensInVainThere(state, ts[2]);
    state.WordEnc(ts[2]);
    dst := state.End();
    segs := state.segs;
    ReaderAgrees(e, charset, segs, dst);
    MisreadIs(segs);
  }

  // A header in UTF-8 of which the B encoder splits a character: twenty e-acute, and two more as
  // words of their own. Each leaves its second byte pending, the last time on a full line.
  method SplitCharacter(charset: seq<byte>) returns (dst: seq<byte>, ghost segs: seq<Seg>)
    requires IsUtf8Name(charset)
    ensures dst == Render(B, charset, segs) + [NL] && !WholeWords(B, segs)
  {
    hide Growable, WordState.Ok, WordState.Now, WordState.Spoiled, WordState.Hollow, WordState.Plains,
      WordState.OpenEmpty, WordState.ClosesEmpty, WordState.AfterWord, WordState.Sane, WordState.Splits,
      WordState.TopsUp, WordState.OnThisLine, WordState.Placed, WordState.Overwrites, WordState.TokenOk,
      ShowToken, IsUtf8Name, Spaced, SevenBit, Trim, TokenMisread, Utf8, SplitTokens, IsExample, WholeWords,
      Render;
    var ts := SplitTokens();
    SplitShape();
    var state := FillWithAcutes(charset);
    SplitStands(state, ts[1], ts[2]);
    TokenIsOk(state, ts[2]);
    state.WordEnc(ts[2]);
    InMime(state);
    SplitStands(state, ts[1], ts[2]);
    TokenIsOk(state, ts[2]);
    state.WordEnc(ts[2]);
    dst := state.End();
    segs := state.segs;
  }

  // Its first two tokens.
  method FillWithAcutes(charset: seq<byte>) returns (state: WordState)
    requires IsUtf8Name(charset)
    ensures fresh(state) && state.Between() && state.out != [] && state.Sane() && state.isMime && state.AfterWord()
    ensures state.e == B && state.charset == charset && |charset| == 5 && state.limit == LIMIT && state.At(65, [0xA9])
  {
    hide Growable, Expected, WordState.Ok, WordState.Now, WordState.Spoiled, WordState.Hollow, WordState.Plains,
      WordState.OpenEmpty, WordState.ClosesEmpty, WordState.AfterWord, WordState.Sane, WordState.Whole,
      WordState.Splits, WordState.TopsUp, WordState.OnThisLine, WordState.Placed, WordState.Overwrites,
      WordState.TokenOk, ShowToken, IsName, IsUtf8Name, Spaced, SevenBit, Trim, TokenMisread, Utf8, SplitTokens,
      IsExample;
    var ts := SplitTokens();
    SplitShape();
    EmptyingShape(B, charset);
    state := new WordState(B, charset, LIMIT);
    TokenIsOk(state, ts[0]);
    state.WordEnc(ts[0]);
    SplitStands(state, ts[1], ts[2]);
    TokenIsOk(state, ts[1]);
    InMime(state);
    state.WordEnc(ts[1]);
    SplitStands(state, ts[1], ts[2]);
  }

  function SplitTokens(): seq<seq<byte>> {
    var z := [SP, 0xC3, 0xA9];
    [['X' as int, ':' as int], [SP] + seq(40, i => if i % 2 == 0 then 0xC3 else 0xA9), z, z]
  }

  lemma SplitShape()
    ensures var ts := SplitTokens();
      && |ts| == 4 && IsExample(ts) && ts[3] == ts[2] && |ts[0]| == 2 && StaysPlain(ts[0], LIMIT)
      && (forall i :: 0 <= i < 4 ==> NL !in ts[i] && Utf8(ts[i]))
      && !SevenBit(ts[1]) && !SevenBit(ts[2]) && Spaced(ts[1]) && Spaced(ts[2])
      && |Trim(ts[1])| == 40 && Trim(ts[1])[39] == 0xA9 && |ts[2]| == 3 && ts[2][2] == 0xA9
  {
    hide Utf8, Trim;
    var y: seq<byte>, z: seq<byte> := SplitTokens()[1], SplitTokens()[2];
    TrimOnce(y);
    assert y[1] == 0xC3 && y[40] == 0xA9 && z[1] == 0xC3;
    SevenBitIsUtf8(SplitTokens()[0]);
    AcutesAreUtf8(y, 1);
    AcutesAreUtf8(z, 1);
    BlankIsUtf8(y);
    BlankIsUtf8(z);
  }

  lemma {:induction false} AcutesAreUtf8(t: seq<byte>, i: nat)
    requires i <= |t| && (|t| - i) % 2 == 0
    requires forall k :: i <= k < |t| ==> t[k] == if (k - i) % 2 == 0 then 0xC3 else 0xA9
    ensures Utf8(t[i..])
    decreases |t| - i
  {
    if i < |t| {
      AcutesAreUtf8(t, i + 2);
      assert t[i..][2..] == t[i + 2..] && t[i..][0] == 0xC3 && t[i..][1] == 0xA9;
    }
  }

  lemma BlankIsUtf8(t: seq<byte>)
    requires t != [] && t[0] == SP && Utf8(t[1..])
    ensures Utf8(t)
  {
  }

  // Where the line stands between these tokens.
  lemma SplitStands(state: WordState, y: seq<byte>, z: seq<byte>)
    requires state.e.B? && IsUtf8Name(state.charset) && |state.charset| == 5 && state.limit == LIMIT
    requires |Trim(y)| == 40 && Trim(y)[39] == 0xA9 && |z| == 3 && z[2] == 0xA9
    ensures !state.isMime ==> !state.Splits(y)
    ensures state.At(2, []) && !state.isMime ==> state.OnThisLine(40)
    ensures state.Placed(2, Trim(y)) ==> state.At(65, [0xA9]) && state.isMime
    ensures state.At(65, [0xA9]) && state.isMime ==> state.TopsUp(z) && !state.Splits(z)
    ensures state.At(69, [0xA9]) && state.isMime ==> state.Splits(z)
  {
    hide Trim, IsUtf8Name;
    assert Letters(40) == 52 && Leftover(Trim(y)) == [0xA9];
  }

  lemma SplittingIsHeader()
    ensures var h := Flatten(SplitTokens());
      && Unfold(h, []) == h && SP in h && Tokens(h) == SplitTokens() && Utf8(h)
      && Expected(SplitTokens(), LIMIT) == h
  {
    hide Expected, Unfold, Flatten, Tokens, Utf8, SevenBit;
    SplitShape();
    ExampleIsHeader(SplitTokens());
    FlattenUtf8(SplitTokens());
  }

  lemma {:induction false} FlattenUtf8(ts: seq<seq<byte>>)
    requires forall i :: 0 <= i < |ts| ==> Utf8(ts[i])
    ensures Utf8(Flatten(ts))
  {
    hide Utf8;
    if ts == [] {
      assert Utf8([]) by { NothingIsUtf8(); }
    } else {
      FlattenUtf8(ts[1..]);
      Utf8Join(ts[0], Flatten(ts[1..]));
    }
  }

  lemma NothingIsUtf8()
    ensures Utf8([])
  {
  }

  function EmptyingTokens(): seq<seq<byte>> {
    [['X' as int, ':' as int], [SP] + seq(52, i => 'a' as int), [SP, 0xE2, 0x82, 0xAC]]
  }

  lemma EmptyingShape(e: Encoding, charset: seq<byte>)
    requires IsUtf8Name(charset)
    ensures IsName(charset) && |charset| == 5 && NL !in charset
    ensures var ts := EmptyingTokens();
      && |ts| == 3 && IsExample(ts) && StaysPlain(ts[0], LIMIT) && StaysPlain(ts[1], LIMIT) && !SevenBit(ts[2])
      && |ts[0]| == 2 && |ts[1]| == 53 && Trim(ts[2]) == [0xE2, 0x82, 0xAC] && Spaced(ts[1]) && Spaced(ts[2])
      && forall i :: 0 <= i < 3 ==> NL !in ts[i] && Utf8(ts[i])
  {
    hide Utf8, Trim;
    assert IsName(charset) by { Utf8IsName(charset); }
    NameHasNoMark(charset);
    var z: seq<byte> := [SP, 0xE2, 0x82, 0xAC];
    TrimOnce(z);
    assert z[1] == 0xE2;
    SevenBitIsUtf8(EmptyingTokens()[0]);
    SevenBitIsUtf8(EmptyingTokens()[1]);
    assert Utf8(z) by { EuroIsUtf8(); }
  }

  lemma Utf8IsName(charset: seq<byte>)
    requires IsUtf8Name(charset)
    ensures IsName(charset)
  {
    assert ESPECIALS == [40, 41, 60, 62, 64, 44, 59, 58, 92, 34, 47, 91, 93, 63, 46, 61];
  }

  lemma {:induction false} SevenBitIsUtf8(t: seq<byte>)
    requires SevenBit(t)
    ensures Utf8(t)
  {
    if t != [] {
      SevenBitIsUtf8(t[1..]);
    }
  }

  lemma EuroIsUtf8()
    ensures Utf8([SP, 0xE2, 0x82, 0xAC])
  {
    var z: seq<byte> := [SP, 0xE2, 0x82, 0xAC];
    assert z[1..][3..] == [];
    assert Utf8(z[1..]);
  }

  lemma TokenIsOk(state: WordState, t: seq<byte>)
    requires NL !in t && Utf8(t) && (state.out != [] ==> Spaced(t))
    ensures state.TokenOk(t)
  {
    hide Utf8, Spaced, ShortRuns, Tail, Trim, StaysPlain, IsUtf8Name;
    WholeToken(t);
  }

  lemma OpensInVainThere(state: WordState, t: seq<byte>)
    requires IsUtf8Name(state.charset) && |state.charset| == 5 && state.limit == LIMIT
    requires state.At(55, []) && !state.isMime
    requires !SevenBit(t) && Trim(t) == [0xE2, 0x82, 0xAC]
    ensures state.ClosesEmpty(t)
  {
    hide SevenBit, Trim, IsUtf8Name;
    assert state.MbTail(Trim(t)) == 0;
  }

  // It is one, too.
  lemma EmptyingIsHeader(charset: seq<byte>)
    requires IsUtf8Name(charset)
    ensures var h := Flatten(EmptyingTokens());
      Unfold(h, []) == h && SP in h && Tokens(h) == EmptyingTokens() && Expected(EmptyingTokens(), LIMIT) == h
  {
    hide Expected, Unfold, Flatten, Tokens, SevenBit;
    EmptyingShape(B, charset);
    ExampleIsHeader(EmptyingTokens());
  }

  function LosingTokens(a: byte, b: byte): seq<seq<byte>> {
    [['X' as int, ':' as int], [SP] + seq(43, i => a), [SP, b]]
  }

  lemma LosingShape(a: byte, b: byte)
    requires a >= 0x80 && b >= 0x80
    ensures var ts := LosingTokens(a, b);
      && |ts| == 3 && IsExample(ts) && ts == [ts[0], ts[1], ts[2]] && |ts[0]| == 2 && |ts[2]| == 2
      && StaysPlain(ts[0], LIMIT) && !SevenBit(ts[1]) && !SevenBit(ts[2]) && Spaced(ts[1]) && Spaced(ts[2])
      && (forall i :: 0 <= i < 3 ==> NL !in ts[i] && !TokenMisread(B, ts[i], LIMIT))
      && |Trim(ts[1])| == 43 && Trim(ts[2]) != []
  {
    hide Trim, HasWord;
    var x: seq<byte>, y: seq<byte>, z: seq<byte> := LosingTokens(a, b)[0], LosingTokens(a, b)[1], LosingTokens(a, b)[2];
    assert y[1] == a && y[43] == a && z[1] == b;
    TrimOnce(y);
    TrimOnce(z);
    ShortHasNoWord(x);
  }

  // After the first token of that header, and after the second.
  lemma LineStands(state: WordState, p: seq<byte>, y: seq<byte>, z: seq<byte>)
    requires state.e.B? && |state.charset| == 6 && state.limit == LIMIT && |p| == 43 && |z| == 2
    ensures !state.AfterWord() && state.At(2, []) ==> state.OnThisLine(43) && !state.isMime && !state.Overwrites(y)
    ensures state.Placed(2, p) ==> state.isMime && state.Overwrites(z) && |state.rem| == 1
    ensures !SevenBit(y) && p == Trim(y) && !state.AfterWord() && state.At(2, []) ==> !state.ClosesEmpty(y)
    ensures !SevenBit(z) && state.isMime ==> !state.ClosesEmpty(z)
  {
    hide Leftover, EndsInWord, Trim, SevenBit, WordState.MbTail;
    LeftoverSize(p);
    assert Letters(43) == 56;
  }

  lemma PlainClosesNothing(state: WordState, t: seq<byte>)
    requires StaysPlain(t, state.limit) && !state.isMime
    ensures !state.ClosesEmpty(t)
  {
  }

  lemma LeftoverSize(p: seq<byte>)
    ensures |Leftover(p)| == |p| % 3
  {
  }

  // A token with a question mark, Q-encoded: the reader takes the encoded-word for plain text.
  lemma QuestionMarkMisread(charset: seq<byte>)
    requires IsName(charset)
    ensures TokenMisread(Q, [SP, QM, 0xC3, 0xA9], LIMIT)
    ensures var t := QOctet(QM) + QOctet(0xC3) + QOctet(0xA9);
      && Closable(Q, t) && WordPayload(Q, t) == [QM, 0xC3, 0xA9]
      && Read([SP] + WordRun(Q, charset, t)) == [SP] + WordRun(Q, charset, t)
  {
    hide QText, QPayload, Classify, Head, Show, QOctet, WordRun, Printable, AllBlank;
    assert [SP, QM, 0xC3, 0xA9][2] == 0xC3;
    OctetAlone(QM);
    AppendQOctet(QOctet(QM), 0xC3);
    AppendQOctet(QOctet(QM) + QOctet(0xC3), 0xA9);
    var t := QOctet(QM) + QOctet(0xC3) + QOctet(0xA9);
    assert [QM] + [0xC3] + [0xA9] == [QM, 0xC3, 0xA9];
    TextPrintable(Q, t);
    WordRead(Q, charset, t);
    NameHasNoMark(charset);
    OneWordRead(Q, charset, t);
  }

  // An encoded-word on its own.
  lemma OneWordRead(e: Encoding, charset: seq<byte>, t: seq<byte>)
    requires Printable(charset) && Printable(t)
    ensures var r := WordRun(e, charset, t);
      Read([SP] + r) == ShowRun([SP], r, false) && Runs([SP] + r) == [r]
  {
    hide Classify, Head, WordRun, Printable, ShowRun;
    var r := WordRun(e, charset, t);
    WordPrintable(e, charset, t);
    NoFoldsAtAll([SP] + r);
    WordEnds(e, charset, t);
    assert [SP] + r == [SP] + r + [];
    HeadIs([SP] + r, Cut([SP], r, []));
    OneRun([SP] + r, r);
    OneRunOnly([SP] + r, r);
  }

  // A plain token that looks like an encoded-word, " =?a?Q?b?=": the reader decodes it.
  lemma PlainMisread(e: Encoding)
    ensures var t := [SP] + WordRun(Q, ['a' as int], ['b' as int]);
      TokenMisread(e, t, LIMIT) && Read(t) == [SP, 'b' as int]
  {
    hide Classify, Head, WordRun, Runs;
    var c, b: seq<byte> := ['a' as int], ['b' as int];
    var r := WordRun(Q, c, b);
    AIsName();
    WordRead(Q, c, b);
    OneWordRead(Q, c, b);
    assert Runs([SP] + r)[0] == r;
    assert QDecode(b) == b by { assert b[1..] == []; }
    assert |[SP] + r| <= LIMIT && SevenBit([SP] + r) by { ExampleShort(); }
  }

  lemma AIsName()
    ensures IsName(['a' as int])
  {
  }

  lemma OneRunOnly(s: seq<byte>, r: seq<byte>)
    requires Head(s) == Cut([SP], r, []) && r != []
    ensures Runs(s) == [r]
  {
    hide Head;
    NoRuns();
    assert Runs(s) == [r] + [] == [r];
  }

  lemma ExampleShort()
    ensures var r := WordRun(Q, ['a' as int], ['b' as int]);
      |[SP] + r| <= LIMIT && SevenBit([SP] + r)
  {
  }
}
