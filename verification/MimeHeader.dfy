// The header encoder of mime.c: a state machine that adds one word at a time to folded
// lines, opening and closing encoded-words and carrying a remainder of up to two bytes.
module MimeHeader {
  import opened Common
  import opened Base64
  import opened MimeText
  import opened MimeTokens
  import opened MimeReader

  const QUANTUM := 4               // B64_NLET_PER_CHUNK

  // Is this charset one whose characters the encoder can keep whole?
  predicate IsUtf8Name(charset: seq<byte>) {
    |charset| == 5 && (charset[0] == 'u' as int || charset[0] == 'U' as int)
    && (charset[1] == 't' as int || charset[1] == 'T' as int) && (charset[2] == 'f' as int || charset[2] == 'F' as int)
    && charset[3] == '-' as int && charset[4] == '8' as int
  }

  // "utf-8", letters in any case.
  lemma Utf8NameIs(charset: seq<byte>)
    ensures IsUtf8Name(charset) <==>
            |charset| == 5 && forall i :: 0 <= i < 5 ==> LowerChar(charset[i] as char) == "utf-8"[i]
  {
    if |charset| == 5 && forall i :: 0 <= i < 5 ==> LowerChar(charset[i] as char) == "utf-8"[i] {
      assert LowerChar(charset[0] as char) == "utf-8"[0] && LowerChar(charset[1] as char) == "utf-8"[1];
      assert LowerChar(charset[2] as char) == "utf-8"[2] && LowerChar(charset[3] as char) == "utf-8"[3];
      assert LowerChar(charset[4] as char) == "utf-8"[4];
    }
  }

  // An encoded-word whose first payload byte starts a character.
  predicate StartsWhole(payload: seq<byte>) {
    payload == [] || !IsContinuation(payload[0])
  }

  // The text of an encoded-word: decodable; with Q and UTF-8 it starts with a character.
  ghost predicate TextOk(e: Encoding, charset: seq<byte>, t: seq<byte>) {
    Closable(e, t) && (e.Q? && IsUtf8Name(charset) ==> StartsWhole(WordPayload(e, t)))
  }

  ghost predicate WordsOk(e: Encoding, charset: seq<byte>, segs: seq<Seg>) {
    && (forall i :: 0 <= i < |segs| && segs[i].Word? ==> TextOk(e, charset, segs[i].text))
    && PiecesOk(e, charset, segs)
  }

  lemma WordsSnoc(e: Encoding, charset: seq<byte>, segs: seq<Seg>, seg: Seg)
    requires WordsOk(e, charset, segs) && (seg.Word? ==> TextOk(e, charset, seg.text))
    requires seg.Plain? ==> PieceOk(e, Render(e, charset, segs), seg)
    ensures WordsOk(e, charset, segs + [seg])
  {
    hide Render, Closable, StartsWhole, WordPayload;
    var all := segs + [seg];
    forall i | 0 <= i < |all| ensures PieceOk(e, Render(e, charset, all[..i]), all[i]) {
      assert all[..i] == segs[..i];
      assert segs[..|segs|] == segs;
    }
  }

  // Every encoded-word stands for whole characters of UTF-8.
  ghost predicate WholeWords(e: Encoding, segs: seq<Seg>) {
    forall i :: 0 <= i < |segs| && segs[i].Word? ==> Utf8(WordPayload(e, segs[i].text))
  }

  lemma WholeSnoc(e: Encoding, segs: seq<Seg>, seg: Seg)
    ensures WholeWords(e, segs + [seg]) <==> WholeWords(e, segs) && (seg.Word? ==> Utf8(WordPayload(e, seg.text)))
  {
    hide Utf8, WordPayload;
    var all := segs + [seg];
    assert all[|segs|] == seg;
    assert forall i :: 0 <= i < |segs| ==> all[i] == segs[i];
  }

  // The texts put out as they are, in order.
  function PlainTexts(segs: seq<Seg>): seq<seq<byte>> {
    if segs == [] then []
    else PlainTexts(segs[..|segs| - 1])
         + (if segs[|segs| - 1].Plain? then [segs[|segs| - 1].text] else [])
  }

  lemma PlainSnoc(segs: seq<Seg>, seg: Seg)
    ensures PlainTexts(segs + [seg]) == PlainTexts(segs) + if seg.Plain? then [seg.text] else []
  {
    assert (segs + [seg])[..|segs|] == segs;
  }

  // The tokens in seven bits that fit a line.
  function PlainTokens(ts: seq<seq<byte>>): seq<seq<byte>> {
    if ts == [] then []
    else PlainTokens(ts[..|ts| - 1])
         + (if SevenBit(ts[|ts| - 1]) && |ts[|ts| - 1]| <= 76 then [ts[|ts| - 1]] else [])
  }

  lemma PlainTokensSnoc(ts: seq<seq<byte>>, t: seq<byte>)
    ensures PlainTokens(ts + [t]) == PlainTokens(ts) + if StaysPlain(t, LIMIT) then [t] else []
  {
    hide SevenBit;
    assert (ts + [t])[..|ts|] == ts;
  }

  // What full quanta leave of a piece.
  function Leftover(p: seq<byte>): (r: seq<byte>)
    ensures |p| == 3 * (|p| / 3) + |r| && |r| < 3 && r == p[|p| - |r|..]
  {
    p[|p| - |p| % 3..]
  }

  // The letters of the full quanta in n bytes.
  function Letters(n: nat): nat {
    4 * (n / 3)
  }

  class WordState {
    const e: Encoding
    const charset: seq<byte>
    const limit: nat
    var out: seq<byte>             // encoded_line, up to pos
    var vpos: nat                  // visual position in the line
    var rem: seq<byte>             // bytes waiting for a full quantum
    var isMime: bool               // inside an encoded-word
    ghost var segs: seq<Seg>       // the closed pieces of out
    ghost var word: seq<byte>      // the text of the open encoded-word

    // The charset name leaves room on a fresh line for a quantum, a character's tail and
    // the closing mark; it holds no line end.
    ghost predicate Fixed() {
      |charset| + 20 <= limit && NL !in charset
    }

    ghost predicate IsUtf8() { IsUtf8Name(charset) }

    ghost predicate WordOk(t: seq<byte>) { TextOk(e, charset, t) }

    ghost predicate Pieces()
      reads this`out, this`isMime, this`segs, this`word
    {
      && out == Render(e, charset, segs) + (if isMime then WordPrefix(e, charset) + word else [])
      && WordsOk(e, charset, segs)
      && (isMime ==> WordOk(word))
    }

    ghost predicate Layout()
      reads this`out, this`vpos, this`isMime
    {
      && vpos == Column(out) && LinesFit(out, limit) && FoldsBlank(out)
      && vpos + (if isMime then 2 else 0) <= limit
      && (isMime ==> !EndsLine(out))
    }

    ghost predicate Ok()
      reads this
    {
      Fixed() && Pieces() && Layout() && |rem| <= 2 && (e.Q? ==> rem == []) && Roomy()
    }

    // A word with nothing in it yet has room for a quantum.
    ghost predicate Roomy()
      reads this`isMime, this`word, this`vpos
    {
      isMime && word == [] ==> vpos + 6 <= limit
    }

    // An encoded-word has been closed with nothing in it.
    ghost predicate Hollow()
      reads this`segs
    {
      Word([]) in segs
    }

    // The plain texts put out so far.
    ghost function Plains(): seq<seq<byte>>
      reads this`segs
    {
      PlainTexts(segs)
    }

    // Every encoded-word closed so far stands for whole characters of UTF-8.
    ghost predicate Whole()
      reads this`segs
    {
      WholeWords(e, segs)
    }

    // What the open encoded-word and the bytes pending stand for.
    ghost function Text(): seq<byte>
      reads this`word, this`rem
    {
      WordPayload(e, word) + rem
    }

    // These are whole characters, too, and the bytes pending still fit the line.
    ghost predicate Sane()
      reads this`segs, this`isMime, this`word, this`rem, this`vpos
    {
      Whole() && (isMime ==> Utf8(Text()) && (rem != [] ==> vpos + 6 <= limit))
    }

    // Closing the word now would leave it empty.
    ghost predicate OpenEmpty()
      reads this`isMime, this`word, this`rem
    {
      isMime && word == [] && rem == []
    }

    // What a reader is shown of everything put out so far, the open word included.
    ghost function Now(): seq<byte>
      reads this`isMime, this`segs, this`word
    {
      if isMime then ShowSeg(Shown(e, segs), EndsInWord(segs), e, Word(word)) else Shown(e, segs)
    }

    ghost predicate AfterWord()
      reads this`isMime, this`segs
    {
      isMime || EndsInWord(segs)
    }

    // Something was put out that a reader takes for something else.
    ghost predicate Spoiled()
      reads this`isMime, this`segs, this`word
    {
      AnyMarked(segs) || (isMime && QM in word)
    }

    constructor (e: Encoding, charset: seq<byte>, limit: nat)
      requires |charset| + 20 <= limit && NL !in charset
      ensures !Spoiled() && !Hollow() && Sane() && At(0, []) && Plains() == []
      ensures Ok() && !isMime && rem == [] && out == [] && Now() == [] && !AfterWord()
      ensures this.e == e && this.charset == charset && this.limit == limit
    {
      this.e, this.charset, this.limit := e, charset, limit;
      out, vpos, rem, isMime := [], 0, [], false;
      segs, word := [], [];
    }

    // mime_strcat, mime_strlcpy: text without line ends, to the end of the line.
    method Put(text: seq<byte>)
      requires vpos == Column(out) && LinesFit(out, limit) && FoldsBlank(out)
      requires vpos + |text| <= limit && NL !in text
      requires EndsLine(out) && text != [] ==> IsBlank(text[0])
      modifies this`out, this`vpos
      ensures out == old(out) + text && vpos == old(vpos) + |text|
      ensures vpos == Column(out) && LinesFit(out, limit) && FoldsBlank(out)
      ensures EndsLine(out) ==> text == []
    {
      AppendText(out, text, limit);
      BlankAfterFold(out, text);
      out := out + text;
      vpos := vpos + |text|;
    }

    // mime_word_end
    method WordEnd()
      requires Ok()
      modifies this`out, this`vpos, this`isMime, this`segs
      ensures Ok() && !isMime
      ensures Now() == old(Now()) && EndsInWord(segs) == old(AfterWord()) && Spoiled() == old(Spoiled())
      ensures out == if old(isMime) then old(out) + WORD_END else old(out)
      ensures vpos == old(vpos) + (if old(isMime) then 2 else 0)
      ensures Whole() <==> old(Whole() && (isMime ==> Utf8(WordPayload(e, word))))
      ensures (Hollow() <==> old(Hollow() || (isMime && word == []))) && Plains() == old(Plains())
    {
      hide Render, Shown, LinesFit, FoldsBlank, TextOk, WordsOk, WordPayload, Column, EndsInWord, AnyMarked,
        WholeWords, Utf8, PlainTexts;
      if !isMime {
        return;
      }
      Put(WORD_END);
      RenderSnoc(e, charset, segs, Word(word));
      WordsSnoc(e, charset, segs, Word(word));
      ShownSnoc(e, segs, Word(word));
      MarkedSnoc(segs, Word(word));
      PlainSnoc(segs, Word(word));
      WholeSnoc(e, segs, Word(word));
      segs := segs + [Word(word)];
      isMime := false;
    }

    // mime_line_break: close the word, start a line; a remainder stays pending.
    method LineBreak()
      requires Ok() && !EndsLine(out)
      modifies this`out, this`vpos, this`isMime, this`segs
      ensures Ok() && !isMime && vpos == 0 && EndsLine(out) && Sum() == old(Sum())
      ensures Now() == old(Now()) && EndsInWord(segs) == old(AfterWord()) && Spoiled() == old(Spoiled())
      ensures (Hollow() <==> old(Hollow() || (isMime && word == []))) && Plains() == old(Plains())
      ensures Whole() <==> old(Whole() && (isMime ==> Utf8(WordPayload(e, word))))
    {
      hide Whole, Utf8, WordPayload, Ok, Now, Sum, Spoiled, Hollow, EndsInWord, LinesFit, FoldsBlank, Column, Plains;
      SumIs();
      WordEnd();
      OutNotEnded();
      NewLine();
      SumIs();
    }

    lemma SumIs()
      ensures Sum() == if AfterWord() then Now() + rem else Now() + rem + [SP]
    {
      hide Now;
    }

    // A closed word's mark is not a line end, nor is what was there without one.
    lemma OutNotEnded()
      ensures forall o: seq<byte> :: !EndsLine(o + WORD_END)
    {
      forall o: seq<byte> ensures !EndsLine(o + WORD_END) {
        assert (o + WORD_END)[|o + WORD_END| - 1] == EQ;
      }
    }

    method NewLine()
      requires Ok() && !isMime && !EndsLine(out)
      modifies this`out, this`vpos, this`segs
      ensures Ok() && vpos == 0 && EndsLine(out)
      ensures Now() == old(Now()) && EndsInWord(segs) == old(EndsInWord(segs)) && Spoiled() == old(Spoiled())
      ensures Hollow() == old(Hollow()) && Whole() == old(Whole()) && Plains() == old(Plains())
    {
      hide Render, Shown, LinesFit, FoldsBlank, TextOk, WordsOk, WordPayload, Column, EndsInWord, AnyMarked,
        Now, WholeWords, Utf8, PlainTexts;
      WholeSnoc(e, segs, Fold);
      PlainSnoc(segs, Fold);
      assert PlainTexts(segs) + [] == PlainTexts(segs);
      PlainNow();
      AppendFold(out, limit);
      FoldAfterText(out);
      RenderSnoc(e, charset, segs, Fold);
      WordsSnoc(e, charset, segs, Fold);
      ShownSnoc(e, segs, Fold);
      MarkedSnoc(segs, Fold);
      out := out + [NL];
      segs := segs + [Fold];
      vpos := 0;
      PlainNow();
      NothingAdded(Render(e, charset, segs));
    }

    // mime_word_start: on a new line unless a quantum and the closing mark still fit.
    method WordStart()
      requires Ok() && !isMime
      modifies this`out, this`vpos, this`isMime, this`segs, this`word
      ensures Ok() && isMime && word == [] && vpos + 6 <= limit
      ensures vpos == (if old(vpos) + 12 + |charset| <= limit then old(vpos) else 0) + 6 + |charset|
      ensures Spoiled() == old(Spoiled()) && Hollow() == old(Hollow()) && Whole() == old(Whole())
      ensures Plains() == old(Plains())
      ensures Now() == if old(AfterWord()) then old(Now()) else old(Now()) + [SP]
    {
      hide Render, Shown, LinesFit, FoldsBlank, TextOk, WordPayload, Column, WordsOk, EndsInWord, AnyMarked,
        WordPrefix, Now, WholeWords, Utf8, PlainTexts;
      EmptyTextOk();
      var len := 1 + 2 + |charset| + 3 + QUANTUM + 2;
      if vpos + len > limit {
        ColumnZero(out);
        LineBreak();
      }
      PrefixHasNoFold(e, charset);
      PlainNow();
      Put(WordPrefix(e, charset));
      word := [];
      isMime := true;
      JustOpened();
      NothingAdded(WordPrefix(e, charset));
    }

    lemma EmptyTextOk()
      ensures WordOk([])
    {
      EmptyWord(e);
    }

    lemma PlainNow()
      ensures !isMime ==> Now() == Shown(e, segs)
    {
      hide Shown;
    }

    lemma JustOpened()
      requires isMime && word == []
      ensures Now() == if EndsInWord(segs) then Shown(e, segs) else Shown(e, segs) + [SP]
    {
      hide Shown, EndsInWord;
      EmptyWord(e);
      var blank: seq<byte> := if EndsInWord(segs) then [] else [SP];
      NothingAdded(Shown(e, segs) + blank);
      NothingAdded(Shown(e, segs));
    }

    static lemma NothingAdded(s: seq<byte>)
      ensures s + [] == s
    {
    }

    // Letters for up to three bytes go to the open encoded-word.
    method PutQuantum(bytes: seq<byte>)
      requires Ok() && isMime && e.B? && Growable(e, word) && 1 <= |bytes| <= 3 && vpos + 6 <= limit
      modifies this`out, this`vpos, this`word
      ensures Ok() && vpos == old(vpos) + QUANTUM && word != []
      ensures Now() == old(Now()) + bytes && Payload(word) == old(Payload(word)) + bytes
      ensures |bytes| == 3 ==> Growable(e, word)
    {
      hide WordsOk, Render, Shown, LinesFit, FoldsBlank, WellPadded, Full, Payload, Quantum, Column;
      var letters, used := EncodeChunk(bytes);
      assert bytes[..used] == bytes;
      QuantumPrintable(bytes);
      AppendQuantum(word, bytes);
      ghost var before := Shown(e, segs) + (if EndsInWord(segs) then [] else [SP]);
      assert before + (Payload(word) + bytes) == (before + Payload(word)) + bytes;
      assert (WordPrefix(e, charset) + word) + letters == WordPrefix(e, charset) + (word + letters);
      ghost var rendered := Render(e, charset, segs);
      assert (rendered + (WordPrefix(e, charset) + word)) + letters
          == rendered + (WordPrefix(e, charset) + (word + letters));
      Put(letters);
      word := word + letters;
    }

    // mime_flush_reminder
    method FlushReminder()
      requires Ok() && isMime && Growable(e, word) && (rem != [] ==> vpos + 6 <= limit)
      modifies this`out, this`vpos, this`word, this`rem
      ensures Ok() && isMime && rem == []
      ensures vpos == old(vpos) + (if old(rem) == [] then 0 else QUANTUM)
      ensures Now() == old(Now()) + old(rem) && Spoiled() == old(Spoiled())
      ensures word == [] <==> old(word == [] && rem == [])
      ensures WordPayload(e, word) == old(WordPayload(e, word) + rem)
    {
      hide Growable, Closable, Pieces, Layout, Shown, Render, AnyMarked, Payload, QPayload, PlainTexts;
      if rem == [] {
        assert Now() + [] == Now();
        return;
      }
      LettersUnspoiled();
      PutQuantum(rem);
      LettersUnspoiled();
      rem := [];
    }

    // Base64 text has no question marks.
    lemma LettersUnspoiled()
      requires Ok() && e.B?
      ensures Spoiled() <==> AnyMarked(segs)
    {
      hide Shown, Render, LinesFit, FoldsBlank, Column, WordsOk, AnyMarked, WellPadded, PlainTexts;
      if isMime {
        TextPrintable(e, word);
      }
    }

    // Where plain text goes on: behind the pending bytes and the closing mark, on a fresh line
    // if these do not fit.
    ghost function PlainFrom(): nat
      reads this`vpos, this`isMime, this`rem
    {
      var extra := if rem == [] then 0 else QUANTUM;
      if !isMime then vpos
      else if vpos + extra + 2 > limit then 6 + |charset| + extra + 2
      else vpos + extra + 2
    }

    // mime_switch_to_plain
    method SwitchToPlain()
      requires Ok() && (if isMime then Growable(e, word) else rem == [])
      modifies this`out, this`vpos, this`isMime, this`segs, this`word, this`rem
      ensures Ok() && !isMime && rem == []
      ensures Now() == old(Now()) + old(rem) && EndsInWord(segs) == old(AfterWord()) && Spoiled() == old(Spoiled())
      ensures !old(isMime) ==> out == old(out) && vpos == old(vpos)
      ensures EndsLine(out) ==> old(!isMime && EndsLine(out))
      ensures vpos == old(PlainFrom()) && (Hollow() <==> old(Hollow() || OpenEmpty())) && Plains() == old(Plains())
      ensures (Whole() ==> old(Whole())) && (old(Sane()) ==> Whole())
    {
      hide Growable, Closable, Shown, Render, LinesFit, FoldsBlank, Column, AnyMarked, Hollow, Whole, Utf8,
        WordPayload, Plains;
      if !isMime {
        assert Now() + [] == Now();
        return;
      }
      var extra := if rem == [] then 0 else QUANTUM;
      if vpos + extra + 2 > limit {
        LineBreak();
        WordStart();
        EmptyWord(e);
      }
      FlushReminder();
      WordEnd();
    }

    // Continuation bytes at the front of p; only counted where characters are kept whole.
    ghost function MbTail(p: seq<byte>): nat {
      if IsUtf8() then Tail(p) else 0
    }

    // mime_get_mb_tail
    method GetMbTail(p: seq<byte>) returns (n: nat)
      ensures n == MbTail(p)
    {
      if !IsUtf8Name(charset) {
        return 0;
      }
      n := 0;
      assert p[0..] == p;
      while n < |p| && IsContinuation(p[n])
        invariant n <= |p| && Tail(p) == n + Tail(p[n..])
      {
        assert p[n..][1..] == p[n + 1..];
        n := n + 1;
      }
    }

    // The encoder forgets bytes: a piece under three bytes meets a remainder on a full line
    // (the remainder is overwritten), or the two together still make no quantum (both are
    // dropped; no token is that short).
    ghost predicate Loses(p: seq<byte>)
      reads this`rem, this`vpos
    {
      rem != [] && |p| < 3 && (|rem| + |p| < 3 || vpos + 10 > limit)
    }

    // From column v of the line on, behind pending bytes or not, nothing of a piece fits.
    ghost predicate NoRoom(p: seq<byte>, v: int, pending: bool) {
      if e.B? then |p| >= 3 && MbTail(p) == 0 && v + (if pending || !IsUtf8() then 10 else 14) > limit
      else p != [] && v + (if IsUtf8() then 14 else 5) > limit
    }

    // mime_add_reminder: top the remainder up to a quantum from the front of p.
    method AddReminder(p: seq<byte>) returns (taken: nat)
      requires Ok() && isMime && e.B? && Growable(e, word)
      modifies this`out, this`vpos, this`word, this`rem
      ensures Ok() && isMime && Growable(e, word) && taken <= |p|
      ensures Now() + rem == old(Now()) + (old(rem) + p[..taken])
      ensures old(rem) == [] || (|old(rem)| + |p| >= 3 && old(vpos) + 10 > limit) ==>
                taken == 0 && rem == old(rem) && vpos == old(vpos) && Now() == old(Now()) && word == old(word)
      ensures old(rem) != [] && |old(rem)| + |p| < 3 ==>
                taken == |p| && Now() == old(Now()) && vpos == old(vpos) && word == old(word)
      ensures old(rem) != [] && |old(rem)| + |p| >= 3 && old(vpos) + 10 <= limit ==>
                taken == 3 - |old(rem)| && rem == [] && vpos == old(vpos) + QUANTUM && vpos + 6 <= limit && word != []
    {
      hide Growable, Closable, Pieces, Layout, Shown, Render, Now;
      if rem == [] {
        assert Now() + rem == Now() + (rem + p[..0]);
        return 0;
      }
      if |rem| + |p| < 3 {
        assert p[..|p|] == p;
        rem := rem + p;
        return |p|;
      }
      if vpos + QUANTUM > limit - 2 - QUANTUM {
        assert Now() + rem == Now() + (rem + p[..0]);
        return 0;
      }
      taken := 3 - |rem|;
      ghost var now := Now();
      PutQuantum(rem + p[..taken]);
      rem := [];
      assert Now() + [] == Now();
    }

    // The loop body of mime_word_enc_b64: three bytes, or, when the line is full, only
    // the rest of a character that has been begun.
    method NextQuantum(p: seq<byte>) returns (chunk: nat, endOfLine: bool)
      requires Ok() && isMime && e.B? && Growable(e, word) && |p| >= 3
      requires MbTail(p) == 0 || (rem == [] && vpos + 6 <= limit)
      requires rem != [] ==> vpos + 10 > limit
      modifies this`out, this`vpos, this`word
      ensures Ok() && isMime && chunk <= |p|
      ensures Now() == old(Now()) + p[..chunk]
      ensures !endOfLine || chunk == |p| ==> Growable(e, word)
      ensures !endOfLine ==> chunk == 3 && rem == [] && vpos + 6 <= limit
      ensures endOfLine && rem != [] ==> chunk == 0
      ensures endOfLine ==> old(vpos) + 14 > limit
      ensures vpos == old(vpos) + (if chunk == 0 then 0 else QUANTUM)
      ensures endOfLine && !IsUtf8() ==> old(vpos) + 10 > limit
      ensures if chunk == 0 then word == old(word) else word != []
      ensures endOfLine && MbTail(p) <= 3 ==> MbTail(p[chunk..]) == 0
      ensures chunk == 0 <==> MbTail(p) == 0 && old(vpos) + (if IsUtf8() then 14 else 10) > limit
    {
      hide Growable, Closable, Pieces, Layout, Shown, Render, Now, MbTail;
      var maxMb := if IsUtf8Name(charset) then 1 else 0;
      var toEncode := |p|;
      endOfLine := false;
      if vpos + (maxMb + 1) * QUANTUM > limit - 2 - QUANTUM {
        endOfLine := true;
        toEncode := GetMbTail(p);
        TailWithin(p);
      }
      chunk := if toEncode > 3 then 3 else toEncode;
      assert p[0..] == p;
      TailAhead(p, 0);
      if chunk > 0 {
        PutQuantum(p[..chunk]);
      } else {
        assert Now() + p[..0] == Now();
      }
    }

    lemma TailAhead(p: seq<byte>, i: nat)
      requires i <= |p|
      ensures MbTail(p[i..]) <= |p| - i && MbTail(p[i + MbTail(p[i..])..]) == 0
    {
      hide IsUtf8Name;
      TailWithin(p[i..]);
      TailEnds(p, i, MbTail(p[i..]));
    }

    lemma ShortFrom(p: seq<byte>, i: nat)
      requires i <= |p|
      ensures (IsUtf8() ==> ShortRuns(p)) ==> MbTail(p[i..]) <= 3
    {
    }

    static lemma TakeMore(now: seq<byte>, p: seq<byte>, done: nat, chunk: nat)
      requires done + chunk <= |p|
      ensures (now + p[..done]) + p[done..][..chunk] == now + p[..done + chunk]
    {
      assert p[..done + chunk] == p[..done] + p[done..][..chunk];
    }

    // The letters still to come behind some full quanta.
    static lemma QuantaLeft(p: seq<byte>, done: nat)
      requires done <= |p|
      ensures done == 0 ==> Letters(done) == 0
      ensures done % 3 == 0 && |p| - done >= 3 ==>
                Letters(done + 3) == Letters(done) + 4 <= Letters(|p|) && (done + 3) % 3 == 0
      ensures done % 3 == 0 && |p| - done < 3 ==> Letters(done) == Letters(|p|) && done == |p| - |Leftover(p)|
    {
    }

    // The loop of mime_word_enc_b64. A pending remainder means the line is full.
    method EncQuanta(p: seq<byte>) returns (done: nat, endOfLine: bool)
      requires Ok() && isMime && e.B? && Growable(e, word)
      requires |p| >= 3 ==> MbTail(p) == 0 || (rem == [] && vpos + 6 <= limit)
      requires |p| >= 3 && rem != [] ==> vpos + 10 > limit
      modifies this`out, this`vpos, this`word
      ensures Ok() && isMime && done <= |p|
      ensures Now() == old(Now()) + p[..done]
      ensures !endOfLine || done == |p| ==> Growable(e, word)
      ensures !endOfLine ==> |p| - done < 3 && (|p| >= 3 ==> rem == [])
      ensures rem != [] || |p| < 3 ==> done == 0
      ensures endOfLine ==> |p| >= 3 && (old(vpos) + 14 <= limit ==> done > 0)
      ensures endOfLine && (IsUtf8() ==> ShortRuns(p)) ==> MbTail(p[done..]) == 0
      ensures done == 0 ==> vpos == old(vpos)
      ensures !endOfLine && done > 0 ==> vpos + 6 <= limit
      ensures rem == [] && old(vpos) + Letters(|p|) + (if IsUtf8() then 10 else 6) <= limit ==>
                !endOfLine && done == |p| - |Leftover(p)| && vpos == old(vpos) + Letters(|p|)
      ensures if done == 0 then word == old(word) else word != []
      ensures |p| >= 3 ==> (done == 0 <==> MbTail(p) == 0 && old(vpos) + (if IsUtf8() then 14 else 10) > limit)
    {
      hide Ok, Fixed, IsUtf8, Growable, Closable, Pieces, Layout, Shown, Render, Now, MbTail, Column, LinesFit,
        FoldsBlank, IsUtf8Name, ShortRuns, Letters, Leftover;
      ghost var now, roomy := Now(), rem == [] && vpos + Letters(|p|) + (if IsUtf8() then 10 else 6) <= limit;
      done, endOfLine := 0, false;
      assert p[0..] == p && now + p[..0] == now;
      QuantaLeft(p, 0);
      while |p| - done >= 3 && !endOfLine
        invariant Ok() && isMime && done <= |p|
        invariant Now() == now + p[..done]
        invariant |p| - done >= 3 && !endOfLine ==> MbTail(p[done..]) == 0 || (rem == [] && vpos + 6 <= limit)
        invariant |p| - done >= 3 && !endOfLine && rem != [] ==> done == 0 && vpos + 10 > limit
        invariant rem != [] || |p| < 3 ==> done == 0
        invariant !endOfLine ==> |p| >= 3 && done > 0 ==> rem == []
        invariant done == 0 ==> vpos == old(vpos)
        invariant !endOfLine && done > 0 ==> vpos + 6 <= limit
        invariant endOfLine && (IsUtf8() ==> ShortRuns(p)) ==> MbTail(p[done..]) == 0
        invariant !endOfLine || done == |p| ==> Growable(e, word)
        invariant endOfLine ==> |p| >= 3 && (old(vpos) + 14 <= limit ==> done > 0)
        invariant if done == 0 then word == old(word) else word != []
        invariant |p| >= 3 && (done > 0 || endOfLine) ==>
                    (done == 0 <==> MbTail(p) == 0 && old(vpos) + (if IsUtf8() then 14 else 10) > limit)
        invariant roomy ==> !endOfLine && done % 3 == 0 && vpos == old(vpos) + Letters(done)
        decreases |p| - done, !endOfLine
      {
        var chunk;
        QuantaLeft(p, done);
        ShortFrom(p, done);
        chunk, endOfLine := NextQuantum(p[done..]);
        assert p[done..][chunk..] == p[done + chunk..];
        TakeMore(now, p, done, chunk);
        done := done + chunk;
      }
      QuantaLeft(p, done);
    }

    // mime_word_enc_b64: as much of p as fits the line; less than a quantum left over is
    // kept as the remainder unless the line is full.
    method EncB64(p: seq<byte>) returns (done: nat)
      requires Ok() && isMime && e.B? && Growable(e, word)
      requires MbTail(p) > 0 ==> vpos + (if rem == [] then 6 else 10) <= limit
      modifies this`out, this`vpos, this`word, this`rem
      ensures Ok() && isMime && done <= |p|
      ensures !old(Loses(p)) ==> Now() + rem == old(Now()) + (old(rem) + p[..done])
      ensures old(Loses(p)) ==> Now() == old(Now()) && rem == if |old(rem)| + |p| < 3 then [] else p
      ensures done == |p| || |p| < 3 ==> Growable(e, word) && done == |p|
      ensures done < |p| ==> rem == [] || (done == 0 && rem == old(rem))
      ensures p != [] && old(vpos) + 14 <= limit ==> done > 0
      ensures old(rem) == [] && old(vpos) + Letters(|p|) + (if IsUtf8() then 10 else 6) <= limit ==>
                done == |p| && vpos == old(vpos) + Letters(|p|) && rem == Leftover(p)
      ensures |old(rem)| == 1 && |p| == 3 && old(vpos) + 10 <= limit ==>
                done == 3 && vpos == old(vpos) + QUANTUM && rem == [p[2]]
      ensures done < |p| && (IsUtf8() ==> ShortRuns(p)) ==> MbTail(p[done..]) == 0
      ensures done < |p| && rem != [] ==> old(NoRoom(p, vpos, rem != []))
      ensures rem != [] && (old(vpos) + 6 <= limit || (old(rem) == [] && |p| >= 3)) ==> vpos + 6 <= limit
      ensures old(NoRoom(p, vpos, rem != [])) ==> done == 0 && word == old(word)
      ensures |p| >= 3 && !old(NoRoom(p, vpos, rem != [])) ==> word != []
      ensures done == |p| && p != [] && (old(rem) != [] ==> |old(rem)| + |p| >= 3) ==> word != [] || rem != []
    {
      hide Letters, Leftover, Fixed, IsUtf8, Growable, Closable, Pieces, Layout, Shown, Render, Now, MbTail,
        Column, LinesFit, FoldsBlank, IsUtf8Name, ShortRuns, Roomy;
      ghost var now, rem0 := Now(), rem;
      var taken := AddReminder(p);
      Slices(p, taken);
      ghost var now1, rem1 := Now(), rem;
      ShortAfter(p, taken);
      var n, endOfLine := EncQuanta(p[taken..]);
      assert p[taken..][n..] == p[taken + n..];
      done := taken + n;
      Resume(now, rem0, p, taken, n, now1, rem1);
      if !endOfLine {
        Resume(now, rem0, p, done, |p| - done, Now(), rem);
        rem := p[done..];
        done := |p|;
      }
    }

    lemma ShortAfter(p: seq<byte>, i: nat)
      requires i <= |p|
      ensures (IsUtf8() ==> ShortRuns(p)) ==> (IsUtf8() ==> ShortRuns(p[i..]))
    {
      hide ShortRuns;
      if IsUtf8() && ShortRuns(p) {
        SuffixShortRuns(p, i);
      }
    }

    static lemma Slices(p: seq<byte>, taken: nat)
      requires taken <= |p|
      ensures taken == 0 ==> p[taken..] == p
      ensures taken == |p| ==> p[taken..] == []
    {
    }

    // mime_qp_encode_octet
    method PutOctet(b: byte)
      requires Ok() && isMime && e.Q? && vpos + 5 <= limit
      requires IsUtf8() && QPayload(word) == [] ==> !IsContinuation(b)
      modifies this`out, this`vpos, this`word
      ensures Ok() && old(vpos) < vpos <= old(vpos) + 3
      ensures Now() == old(Now()) + [b] && QPayload(word) == old(QPayload(word)) + [b]
      ensures word != [] && (Spoiled() <==> old(Spoiled()) || b == QM)
    {
      hide WordsOk, Render, Shown, LinesFit, FoldsBlank, QText, QPayload, QOctet, Column, AnyMarked, PlainTexts;
      var letters := QOctet(b);
      AppendQOctet(word, b);
      OctetMark(b);
      ghost var before := Shown(e, segs) + (if EndsInWord(segs) then [] else [SP]);
      assert before + (QPayload(word) + [b]) == (before + QPayload(word)) + [b];
      ghost var rendered := Render(e, charset, segs);
      assert (WordPrefix(e, charset) + word) + letters == WordPrefix(e, charset) + (word + letters);
      assert (rendered + (WordPrefix(e, charset) + word)) + letters
          == rendered + (WordPrefix(e, charset) + (word + letters));
      Put(letters);
      word := word + letters;
    }

    // mime_word_enc_qp_flush_mb: the rest of a character that has been begun.
    method FlushTail(p: seq<byte>) returns (n: nat)
      requires Ok() && isMime && e.Q? && vpos + 3 * MbTail(p) + 2 <= limit
      requires MbTail(p) > 0 ==> QPayload(word) != []
      modifies this`out, this`vpos, this`word
      ensures Ok() && n == MbTail(p) <= |p|
      ensures Now() == old(Now()) + p[..n]
      ensures Spoiled() <==> old(Spoiled()) || QM in p[..n]
      ensures if n == 0 then word == old(word) else word != []
    {
      hide Render, Shown, LinesFit, FoldsBlank, QText, QPayload, QOctet, Column, Now, Pieces, Layout, MbTail, Spoiled;
      n := GetMbTail(p);
      TailWithin(p);
      ghost var now := Now();
      assert now + p[..0] == now;
      var i := 0;
      while i < n
        invariant 0 <= i <= n && Ok() && isMime && vpos + 3 * (n - i) + 2 <= limit
        invariant Now() == now + p[..i] && (n > 0 ==> QPayload(word) != [])
        invariant Spoiled() <==> old(Spoiled()) || QM in p[..i]
        invariant if i == 0 then word == old(word) else word != []
      {
        PutOctet(p[i]);
        assert p[..i + 1] == p[..i] + [p[i]];
        assert (now + p[..i]) + [p[i]] == now + p[..i + 1];
        i := i + 1;
      }
    }

    // mime_word_enc_qp: octets while the line has room for one and a character's tail.
    method EncQp(p: seq<byte>) returns (done: nat)
      requires Ok() && isMime && e.Q? && MbTail(p) == 0 && (IsUtf8() ==> ShortRuns(p))
      modifies this`out, this`vpos, this`word
      ensures Ok() && isMime && done <= |p|
      ensures Now() == old(Now()) + p[..done]
      ensures Spoiled() <==> old(Spoiled()) || QM in p[..done]
      ensures MbTail(p[done..]) == 0
      ensures p != [] && old(vpos) + 14 <= limit ==> done > 0
      ensures old(NoRoom(p, vpos, false)) ==> done == 0 && word == old(word)
      ensures p != [] && !old(NoRoom(p, vpos, false)) ==> word != []
    {
      hide Render, Shown, LinesFit, FoldsBlank, QText, QPayload, QOctet, Column, Now, Pieces, MbTail, ShortRuns,
        Spoiled;
      var maxMb := if IsUtf8Name(charset) then 3 else 0;
      ghost var now := Now();
      done := 0;
      assert p[0..] == p && now + p[..0] == now;
      while done < |p|
        invariant 0 <= done <= |p| && Ok() && isMime
        invariant Now() == now + p[..done]
        invariant Spoiled() <==> old(Spoiled()) || QM in p[..done]
        invariant vpos + 3 * MbTail(p[done..]) + 2 <= limit
        invariant if done == 0 then vpos == old(vpos) && MbTail(p[done..]) == 0 else QPayload(word) != []
        invariant if done == 0 then word == old(word) else word != [] && !old(NoRoom(p, vpos, false))
      {
        if vpos + (maxMb + 1) * 3 > limit - 2 {
          var n := FlushTail(p[done..]);
          TailEnds(p, done, n);
          assert p[..done + n] == p[..done] + p[done..][..n];
          assert (now + p[..done]) + p[done..][..n] == now + p[..done + n];
          done := done + n;
          return;
        }
        if done == 0 {
          HeadByte(p, done);
        }
        PutOctet(p[done]);
        assert p[..done + 1] == p[..done] + [p[done]];
        assert (now + p[..done]) + [p[done]] == now + p[..done + 1];
        ShortTail(p, done + 1);
        done := done + 1;
      }
      assert p[done..] == [];
      NoTail();
    }

    lemma NoTail()
      ensures MbTail([]) == 0
    {
    }

    lemma HeadByte(p: seq<byte>, i: nat)
      requires i < |p| && MbTail(p[i..]) == 0
      ensures IsUtf8() ==> !IsContinuation(p[i])
    {
    }

    lemma ShortTail(p: seq<byte>, i: nat)
      requires i <= |p| && (IsUtf8() ==> ShortRuns(p))
      ensures MbTail(p[i..]) <= if IsUtf8() then 3 else 0
    {
    }

    lemma TailEnds(p: seq<byte>, i: nat, n: nat)
      requires i <= |p| && n == MbTail(p[i..]) <= |p| - i
      ensures MbTail(p[i + n..]) == 0
    {
      assert n < |p| - i ==> p[i + n..][0] == p[i..][n];
    }

    // Between two tokens.
    ghost predicate Between()
      reads this
    {
      Ok() && !EndsLine(out) && (if isMime then Growable(e, word) else rem == [])
    }

    // What the encoder can take next without splitting a character: after the first, a token
    // starts with a blank and ends in something else; for Q with UTF-8, one to be encoded is
    // made of whole characters.
    ghost predicate TokenOk(t: seq<byte>)
      reads this`out
    {
      && NL !in t
      && (out != [] ==> Spaced(t))
      && (!StaysPlain(t, limit) && e.Q? && IsUtf8() ==> ShortRuns(t) && Tail(Trim(t)) == 0)
    }

    // A token of a blank and one byte overwrites the bytes pending when the line is full.
    ghost predicate Overwrites(t: seq<byte>)
      reads this`isMime, this`rem, this`vpos
    {
      e.B? && isMime && rem != [] && |t| == 2 && vpos + 10 > limit
    }

    // A word opened from column v on takes nothing of the piece: there is room for the quantum a
    // word must have, but not for what the loop wants to keep free behind it.
    ghost predicate OpensInVain(p: seq<byte>, v: int) {
      v + 12 + |charset| <= limit && NoRoom(p, v + 6 + |charset|, false)
    }

    // A piece is begun on a line where nothing of it fits, in a word with nothing else in it.
    ghost predicate FitsNothing(p: seq<byte>)
      reads this`isMime, this`word, this`vpos, this`rem
    {
      if isMime then word == [] && NoRoom(p, vpos, rem != []) else OpensInVain(p, vpos)
    }

    // The token makes the encoder close an encoded-word with nothing in it: one that is open, for
    // plain text; or the one its own piece was to go into.
    ghost predicate ClosesEmpty(t: seq<byte>)
      reads this`isMime, this`word, this`vpos, this`rem
    {
      || (SevenBit(t) && OpenEmpty())
      || (!StaysPlain(t, limit)
          && if SevenBit(t) then OpensInVain(Trim(t), PlainFrom()) else FitsNothing(Piece(t)))
    }

    // The word has to be closed with bytes pending that belong to a character begun in it: they
    // are not enough for a quantum, and with the token there is no room for one.
    ghost predicate Splits(t: seq<byte>)
      reads this`isMime, this`rem, this`vpos
    {
      e.B? && isMime && rem != [] && IsContinuation(rem[0]) && |t| >= 3 && vpos + 10 > limit
    }

    // The open word, what is pending and the piece to come are whole characters together.
    ghost predicate Flows(p: seq<byte>)
      reads this`segs, this`isMime, this`word, this`rem
    {
      Whole() && Utf8((if isMime then Text() else rem) + p) && Utf8(p)
    }

    // What will be pending behind the piece still fits the line.
    ghost predicate Settles(p: seq<byte>)
      reads this`isMime, this`rem, this`vpos
    {
      !isMime || vpos + 6 <= limit || (rem == [] && |p| >= 3)
    }

    // Three bytes that top a single pending one up to a quantum leave one.
    ghost predicate TopsUp(p: seq<byte>)
      reads this`isMime, this`rem, this`vpos
    {
      e.B? && isMime && |rem| == 1 && |p| == 3 && vpos + 10 <= limit
    }

    // A first piece of this length goes on the line at hand, the end of it pending.
    ghost predicate OnThisLine(n: nat)
      reads this`isMime, this`rem, this`vpos
    {
      e.B? && !isMime && rem == [] && vpos + |charset| + Letters(n) + (if IsUtf8() then 16 else 12) <= limit
    }

    // mime_7bit_try: false when the token is longer than a line.
    method SevenBitTry(token: seq<byte>) returns (ok: bool)
      requires Between() && SevenBit(token) && NL !in token && (out != [] ==> Spaced(token))
      modifies this`out, this`vpos, this`isMime, this`segs, this`word, this`rem
      ensures Between() && !isMime
      ensures ok <==> |token| <= limit
      ensures ok ==> Now() == old(Now() + rem) + token && !AfterWord() && (token != [] ==> out != [])
      ensures ok ==> (Spoiled() <==> old(Spoiled()) || HasWord(token))
      ensures ok && old(!isMime && vpos + |token| <= limit) ==> vpos == old(vpos) + |token| && rem == []
      ensures !ok ==> Now() == old(Now()) + old(rem) && AfterWord() == old(AfterWord()) && (old(out) == [] ==> out == [])
      ensures !ok ==> Spoiled() == old(Spoiled()) && At(old(PlainFrom()), [])
      ensures Hollow() <==> old(Hollow() || OpenEmpty())
      ensures Plains() == old(Plains()) + if ok then [token] else []
      ensures (Whole() ==> old(Whole())) && (old(Sane()) ==> Whole())
    {
      hide Growable, WordOk, Shown, Render, LinesFit, FoldsBlank, Column, EndsInWord, Spoiled, Hollow,
        PlainFrom, OpenEmpty, Whole, Sane, Plains;
      SwitchToPlain();
      if |token| > limit {
        return false;
      }
      PutPlain(token);
      ok := true;
    }

    // The rest of it: on this line or the next, as it is.
    method PutPlain(token: seq<byte>)
      requires Ok() && !isMime && rem == [] && !EndsLine(out) && |token| <= limit && NL !in token
      requires SevenBit(token) && (out != [] ==> Spaced(token))
      modifies this`out, this`vpos, this`segs, this`isMime
      ensures Ok() && !EndsLine(out) && !isMime && !AfterWord() && (token != [] ==> out != [])
      ensures Now() == old(Now()) + token
      ensures Spoiled() <==> old(Spoiled()) || HasWord(token)
      ensures Hollow() == old(Hollow()) && Whole() == old(Whole()) && Plains() == old(Plains()) + [token]
      ensures old(vpos) + |token| <= limit ==> vpos == old(vpos) + |token|
    {
      hide Growable, TextOk, WordsOk, Shown, Render, LinesFit, FoldsBlank, Column, EndsInWord, AnyMarked,
        HasWord, WholeWords, Utf8, PlainTexts;
      if vpos + |token| > limit {
        ColumnZero(out);
        LineBreak();
      }
      Put(token);
      RenderSnoc(e, charset, segs, Plain(token));
      assert Ascii(token) by { PlainIsAscii(token); }
      WordsSnoc(e, charset, segs, Plain(token));
      ShownSnoc(e, segs, Plain(token));
      MarkedSnoc(segs, Plain(token));
      PlainSnoc(segs, Plain(token));
      WholeSnoc(e, segs, Plain(token));
      segs := segs + [Plain(token)];
    }

    static lemma PlainIsAscii(token: seq<byte>)
      requires SevenBit(token)
      ensures Ascii(token)
    {
    }

    // state->encode
    method Encode(p: seq<byte>) returns (done: nat)
      requires Ok() && isMime && Growable(e, word)
      requires e.B? && rem != [] ==> |rem| + |p| >= 3
      requires e.B? && MbTail(p) > 0 ==> vpos + (if rem == [] then 6 else 10) <= limit
      requires e.Q? ==> MbTail(p) == 0 && (IsUtf8() ==> ShortRuns(p))
      modifies this`out, this`vpos, this`word, this`rem
      ensures Ok() && isMime && done <= |p|
      ensures !old(Loses(p)) ==> Now() + rem == old(Now()) + (old(rem) + p[..done])
      ensures old(Loses(p)) ==> Now() == old(Now()) && rem == p
      ensures Spoiled() <==> old(Spoiled()) || (e.Q? && QM in p[..done])
      ensures done == |p| ==> Growable(e, word)
      ensures e.B? && |p| < 3 ==> done == |p|
      ensures done < |p| ==> rem == [] || (done == 0 && rem == old(rem))
      ensures e.Q? ==> MbTail(p[done..]) == 0
      ensures p != [] && old(vpos) + 14 <= limit ==> done > 0
      ensures e.B? && old(rem) == [] && old(vpos) + Letters(|p|) + (if IsUtf8() then 10 else 6) <= limit ==>
                done == |p| && vpos == old(vpos) + Letters(|p|) && rem == Leftover(p)
      ensures e.B? && |old(rem)| == 1 && |p| == 3 && old(vpos) + 10 <= limit ==>
                done == 3 && vpos == old(vpos) + QUANTUM && rem == [p[2]]
      ensures !old(Loses(p)) ==> Text() == old(Text()) + p[..done]
      ensures done < |p| && (IsUtf8() ==> ShortRuns(p)) ==> MbTail(p[done..]) == 0
      ensures done < |p| && rem != [] ==> old(NoRoom(p, vpos, rem != []))
      ensures rem != [] && (old(vpos) + 6 <= limit || (old(rem) == [] && |p| >= 3)) ==> vpos + 6 <= limit
      ensures old(NoRoom(p, vpos, rem != [])) ==> done == 0 && word == old(word)
      ensures done < |p| && !old(NoRoom(p, vpos, rem != [])) ==> word != []
      ensures done == |p| && p != [] ==> word != [] || rem != []
    {
      hide Letters, Leftover, Full, WellPadded, Shown, Render, LinesFit, FoldsBlank, Column, Now, MbTail, QText,
        ShortRuns, AnyMarked, IsUtf8Name, Base, Text, WordPayload, Layout, PlainTexts;
      ghost var base, text, rem0, now := Base(), Text(), rem, Now();
      NowIs();
      if e.B? {
        LettersUnspoiled();
        done := EncB64(p);
        LettersUnspoiled();
      } else {
        done := EncQp(p);
        NothingAdded(Now());
        assert [] + p[..done] == p[..done];
      }
      NowIs();
      SameText(base, text, p[..done], Text());
      Regroup(now, rem0, p[..done]);
    }

    // What is shown before the open word, its blank included.
    ghost function Base(): seq<byte>
      reads this`segs
    {
      Shown(e, segs) + (if EndsInWord(segs) then [] else [SP])
    }

    lemma NowIs()
      ensures isMime ==> Now() + rem == Base() + Text()
    {
      hide Shown, EndsInWord, WordPayload;
      Regroup(Base(), WordPayload(e, word), rem);
    }

    static lemma SameText(base: seq<byte>, text: seq<byte>, more: seq<byte>, text1: seq<byte>)
      ensures base + text1 == (base + text) + more <==> text1 == text + more
    {
      Regroup(base, text, more);
      if base + text1 == base + (text + more) {
        assert text1 == (base + text1)[|base|..] == (base + (text + more))[|base|..] == text + more;
      }
    }

    // What is shown and pending, and the blank a coming encoded-word would bring.
    ghost function Sum(): seq<byte>
      reads this`isMime, this`segs, this`word, this`rem
    {
      if AfterWord() then Now() + rem else Now() + rem + [SP]
    }

    // mime_word_enc
    method WordEnc(token: seq<byte>)
      requires Between() && TokenOk(token) && (AfterWord() ==> isMime)
      modifies this`out, this`vpos, this`isMime, this`segs, this`word, this`rem
      ensures Between() && (AfterWord() ==> isMime) && (token != [] ==> out != [])
      ensures !old(Overwrites(token)) || SevenBit(token) ==>
                Now() + rem == ShowToken(old(Now() + rem), old(AfterWord()), token, limit)
      ensures old(Overwrites(token)) && !SevenBit(token) ==> Now() == old(Now()) && rem == token
      ensures AfterWord() <==> !StaysPlain(token, limit)
      ensures Spoiled() <==> old(Spoiled()) || TokenMisread(e, token, limit)
      ensures Hollow() <==> old(Hollow() || ClosesEmpty(token))
      ensures Plains() == old(Plains()) + if StaysPlain(token, limit) then [token] else []
      ensures OpenEmpty() ==> !StaysPlain(token, limit) && Trim(token) == []
      ensures Whole() ==> old(Whole())
      ensures IsUtf8() && old(Sane()) && Utf8(token) ==>
                if old(Splits(token)) && !SevenBit(token) then !Whole() else Sane()
      ensures old(TopsUp(token)) && !SevenBit(token) ==> At(old(vpos) + QUANTUM, [token[2]])
      ensures old(!isMime) && StaysPlain(token, limit) && old(vpos) + |token| <= limit ==> At(old(vpos) + |token|, [])
      ensures old(OnThisLine(|Trim(token)|)) && !SevenBit(token) ==> Placed(old(vpos), Trim(token))
    {
      hide Growable, Closable, Ok, Shown, Render, Now, MbTail, ShortRuns, Column, LinesFit, FoldsBlank, Trim,
        EndsInWord, Spoiled, HasWord, IsUtf8Name, OnThisLine, Placed, Hollow, OpensInVain, PlainFrom, Whole,
        Splits, Sane, TopsUp, Utf8, Plains;
      var plain := Is7Bit(token);
      if plain {
        var ok := SevenBitTry(token);
        PlainSane(token);
        if ok {
          assert Now() + [] == Now();
          return;
        }
        assert Now() + [] == Now();
        assert !Overwrites(token);
      }
      PieceNothing(token);
      LongEnough(token);
      EncodeWord(token);
    }

    // Inside an encoded-word a token of UTF-8 with an eight-bit byte has at least three bytes.
    lemma LongEnough(token: seq<byte>)
      requires Between() && (out != [] ==> Spaced(token))
      ensures isMime && Utf8(token) && !SevenBit(token) ==> |token| >= 3
    {
      hide Growable, Utf8, Whole, SevenBit;
      if isMime && Utf8(token) && !SevenBit(token) {
        BetweenInside();
        BlankFirst(token);
      }
    }

    lemma PlainSane(token: seq<byte>)
      ensures !isMime ==> !Splits(token) && (Sane() <==> Whole()) && !TopsUp(token)
    {
      hide Whole;
    }

    lemma PieceNothing(token: seq<byte>)
      ensures Piece(token) == [] ==> Trim(token) == []
    {
    }

    // The bytes that stand for a token to be encoded: inside an encoded-word with its blanks.
    ghost function Piece(token: seq<byte>): seq<byte>
      reads this`isMime
    {
      if isMime then token else Trim(token)
    }

    // Encoding a token, a long seven-bit one or one with eight-bit bytes.
    method EncodeWord(token: seq<byte>)
      requires Between() && NL !in token && (out != [] ==> Spaced(token))
      requires e.Q? && IsUtf8() ==> ShortRuns(token) && Tail(Trim(token)) == 0
      modifies this`out, this`vpos, this`isMime, this`segs, this`word, this`rem
      ensures Between() && isMime && out != []
      ensures !old(Overwrites(token)) ==> Now() + rem == old(Sum() + Piece(token))
      ensures old(Overwrites(token)) ==> Now() == old(Now()) && rem == token
      ensures Spoiled() <==> old(Spoiled()) || (e.Q? && QM in token)
      ensures (Hollow() <==> old(Hollow() || FitsNothing(Piece(token)))) && Plains() == old(Plains())
      ensures old(Piece(token)) != [] ==> !OpenEmpty()
      ensures Whole() ==> old(Whole())
      ensures IsUtf8() && old(Sane()) && Utf8(token) && (old(isMime) ==> |token| >= 3) ==>
                if old(Splits(token)) then !Whole() else Sane()
      ensures old(TopsUp(token)) ==> At(old(vpos) + QUANTUM, [token[2]])
      ensures old(OnThisLine(|Trim(token)|)) ==> Placed(old(vpos), Trim(token))
    {
      hide Between, Ok, Now, Spaced, ShortRuns, Tail, Trim, Spoiled, IsUtf8Name, Placed, Ready, Sum, Overwrites,
        OnThisLine, Hollow, FitsNothing, OpenEmpty, Whole, Splits, Sane, Flows, Settles, TopsUp, Utf8, Text, At,
        Plains;
      PieceReady(token);
      PieceOverwrites(token);
      TrimMarks(token);
      PieceFlows(token);
      var p := token;
      if !isMime {
        p := SkipSpaces(token);
      }
      EncodeAll(p);
      FlowsIsSane();
    }

    // What was whole goes on with the piece of a token.
    lemma PieceFlows(token: seq<byte>)
      requires Between()
      ensures Sane() && Utf8(token) ==> Flows(Piece(token))
      ensures Sane() && (isMime ==> |token| >= 3) ==> Settles(Piece(token))
      ensures Splits(Piece(token)) <==> Splits(token)
      ensures TopsUp(token) ==> isMime
      ensures isMime && |token| >= 3 ==> !Overwrites(token)
    {
      hide Growable, Ok, Utf8, Text, Trim, Whole;
      if Sane() && Utf8(token) {
        TrimUtf8(token);
        if isMime {
          Utf8Join(Text(), token);
        } else {
          assert [] + Trim(token) == Trim(token);
        }
      }
    }

    lemma FlowsIsSane()
      ensures isMime && Flows([]) && (rem != [] ==> vpos + 6 <= limit) ==> Sane()
    {
      hide Utf8, Text, Whole;
      NothingAdded(Text());
    }

    // The piece of a token: the refill loop can start with it.
    lemma PieceReady(token: seq<byte>)
      requires Between() && NL !in token && (out != [] ==> Spaced(token))
      requires e.Q? && IsUtf8() ==> ShortRuns(token) && Tail(Trim(token)) == 0
      ensures Ready(Piece(token))
    {
      hide Between, Ok, Ready, Spaced, Trim, ShortRuns, MbTail, Tail, IsUtf8Name;
      if isMime {
        BetweenInside();
        SpacedStarts(token);
        TailAtBlank(token);
        ReadyInside(token);
      } else {
        TrimKeeps(token);
        ReadyOutside(Trim(token));
      }
    }

    // Only inside an encoded-word is anything overwritten, and there the piece is the token.
    lemma PieceOverwrites(token: seq<byte>)
      ensures Overwrites(Piece(token)) == Overwrites(token) && (Overwrites(token) ==> isMime)
      ensures OnThisLine(|Trim(token)|) ==> !isMime
    {
      hide Trim, IsUtf8Name;
    }

    lemma BetweenInside()
      requires Between() && isMime
      ensures out != []
    {
      hide Growable;
      InsideWord();
    }

    lemma ReadyInside(p: seq<byte>)
      requires Between() && isMime && |p| >= 2 && MbTail(p) == 0 && (e.Q? && IsUtf8() ==> ShortRuns(p))
      ensures Ready(p)
    {
      hide Growable, Pieces, Layout, MbTail, ShortRuns, IsUtf8Name;
    }

    lemma ReadyOutside(p: seq<byte>)
      requires Between() && !isMime && (e.Q? ==> MbTail(p) == 0 && (IsUtf8() ==> ShortRuns(p)))
      ensures Ready(p)
    {
      hide Growable, Pieces, Layout, MbTail, ShortRuns, IsUtf8Name;
    }

    lemma TailAtBlank(t: seq<byte>)
      requires t != [] && IsBlank(t[0])
      ensures MbTail(t) == 0
    {
    }

    static lemma SpacedStarts(t: seq<byte>)
      requires Spaced(t)
      ensures |t| >= 2 && IsBlank(t[0])
    {
    }

    // Where the line stands, and what is pending.
    ghost predicate At(v: int, r: seq<byte>)
      reads this`vpos, this`rem
    {
      vpos == v && rem == r
    }

    // A piece put on the line from v on: the opening mark, its full quanta, the rest pending.
    ghost predicate Placed(v: int, p: seq<byte>)
      reads this`vpos, this`rem, this`isMime
    {
      isMime && At(v + 6 + |charset| + Letters(|p|), Leftover(p))
    }

    lemma InsideWord()
      requires Ok() && isMime
      ensures out != [] && !EndsLine(out)
    {
    }

    lemma TrimKeeps(t: seq<byte>)
      ensures IsUtf8() && ShortRuns(t) ==> ShortRuns(Trim(t))
      ensures Tail(Trim(t)) == 0 || !IsUtf8() ==> MbTail(Trim(t)) == 0
    {
      hide Tail, Trim, IsUtf8Name, ShortRuns;
      var k := |t| - |Trim(t)|;
      if ShortRuns(t) {
        SuffixShortRuns(t, k);
      }
    }

    // Where a round of the refill loop may begin: in an encoded-word, or outside one with
    // nothing pending, or on a fresh line.
    ghost predicate Ready(p: seq<byte>)
      reads this
    {
      && Ok()
      && (isMime ==> Growable(e, word) && (e.B? ==> MbTail(p) == 0 && (rem != [] ==> |p| >= 2)))
      && (!isMime && rem != [] ==> |p| >= 3 && AfterWord() && vpos == 0)
      && (e.Q? ==> MbTail(p) == 0 && (IsUtf8() ==> ShortRuns(p)))
    }

    // Bytes pending that must wait for the next line.
    ghost predicate Held(p: seq<byte>)
      reads this`isMime, this`rem, this`vpos
    {
      e.B? && isMime && rem != [] && |p| >= 3 && vpos + 10 > limit
    }

    // Filling the line from inside an encoded-word.
    method FillWord(p: seq<byte>) returns (done: nat)
      requires Ok() && isMime && Growable(e, word)
      requires e.B? && rem != [] ==> |rem| + |p| >= 3
      requires e.B? && MbTail(p) > 0 ==> vpos + (if rem == [] then 6 else 10) <= limit
      requires e.Q? ==> MbTail(p) == 0 && (IsUtf8() ==> ShortRuns(p))
      modifies this`out, this`vpos, this`word, this`rem
      ensures Ok() && isMime && done <= |p| && out != [] && !EndsLine(out)
      ensures !old(Loses(p)) ==> Now() + rem == old(Now() + rem) + p[..done]
      ensures old(Loses(p)) ==> done == |p| && Now() == old(Now()) && rem == p
      ensures Spoiled() <==> old(Spoiled()) || (e.Q? && QM in p[..done])
      ensures done == |p| ==> Growable(e, word)
      ensures e.B? && |p| < 3 ==> done == |p|
      ensures done < |p| ==> rem == [] || (done == 0 && rem == old(rem))
      ensures e.Q? ==> MbTail(p[done..]) == 0 && (IsUtf8() ==> ShortRuns(p[done..]))
      ensures p != [] && old(vpos) + 14 <= limit ==> done > 0
      ensures old(NoRoom(p, vpos, rem != [])) ==> done == 0 && word == old(word)
      ensures done < |p| && !old(NoRoom(p, vpos, rem != [])) ==> word != []
      ensures done == |p| && p != [] ==> word != [] || rem != []
      ensures IsUtf8() && old(Utf8(Text() + p)) && Utf8(p) && !old(Loses(p)) ==>
                Utf8(Text() + p[done..]) && Utf8(p[done..])
      ensures done < |p| && rem != [] ==> old(NoRoom(p, vpos, rem != []))
      ensures rem != [] && (old(vpos) + 6 <= limit || (old(rem) == [] && |p| >= 3)) ==> vpos + 6 <= limit
      ensures e.B? && old(rem) == [] && old(vpos) + Letters(|p|) + (if IsUtf8() then 10 else 6) <= limit ==>
                done == |p| && At(old(vpos) + Letters(|p|), Leftover(p))
      ensures e.B? && |old(rem)| == 1 && |p| == 3 && old(vpos) + 10 <= limit ==>
                done == 3 && At(old(vpos) + QUANTUM, [p[2]])
    {
      hide Letters, Leftover, Growable, Closable, Pieces, Layout, Shown, Render, Now, MbTail, ShortRuns, Column,
        LinesFit, FoldsBlank, EndsInWord, Spoiled, IsUtf8Name, Text, NoRoom, Utf8;
      ghost var now, rem0, text := Now(), rem, Text();
      ShortWhenUtf8(p);
      done := Encode(p);
      InsideWord();
      Regroup(now, rem0, p[..done]);
      if IsUtf8() && Utf8(text + p) && Utf8(p) && !old(Loses(p)) {
        FlowsOn(text, p, done);
      }
      if e.Q? && IsUtf8() {
        SuffixShortRuns(p, done);
      }
    }

    // One round: open an encoded-word if none is open, fill the line.
    method FillLine(p: seq<byte>) returns (done: nat)
      requires Ready(p)
      modifies this`out, this`vpos, this`isMime, this`segs, this`word, this`rem
      ensures Ok() && isMime && done <= |p| && out != [] && !EndsLine(out)
      ensures !old(Overwrites(p)) ==> Sum() == old(Sum()) + p[..done]
      ensures old(Overwrites(p)) ==> done == |p| && Now() == old(Now()) && rem == p
      ensures Spoiled() <==> old(Spoiled()) || (e.Q? && QM in p[..done])
      ensures old(OnThisLine(|p|)) ==> done == |p| && Placed(old(vpos), p)
      ensures Hollow() == old(Hollow()) && Plains() == old(Plains()) && (old(FitsNothing(p)) ==> done < |p|)
      ensures done < |p| ==> (word == [] <==> old(FitsNothing(p)))
      ensures done == |p| && p != [] ==> !OpenEmpty()
      ensures Whole() == old(Whole())
      ensures IsUtf8() && old(Flows(p)) && !old(Overwrites(p)) ==> Flows(p[done..])
      ensures done < |p| && rem != [] ==> old(Held(p)) && word == old(word) && rem == old(rem)
      ensures old(Held(p)) ==> done < |p| && rem != []
      ensures old(Settles(p)) && rem != [] ==> vpos + 6 <= limit
      ensures old(TopsUp(p)) ==> done == |p| && At(old(vpos) + QUANTUM, [p[2]])
      ensures done == |p| ==> Growable(e, word)
      ensures rem != [] && done < |p| ==> |p| - done >= 3
      ensures e.Q? ==> MbTail(p[done..]) == 0 && (IsUtf8() ==> ShortRuns(p[done..]))
      ensures old(!isMime && vpos == 0) && p != [] ==> done > 0
    {
      hide Letters, Leftover, Growable, Closable, Pieces, Layout, Shown, Render, Now, MbTail, ShortRuns, Column,
        LinesFit, FoldsBlank, EndsInWord, Spoiled, IsUtf8Name, Flows, Text, Whole, Utf8, Hollow, Plains;
      FlowIs(p);
      if !isMime {
        WordStart();
        JustRem();
      }
      assert Sum() == Now() + rem == old(Sum());
      assert Loses(p) == old(Overwrites(p));
      done := FillWord(p);
      FlowIs(p[done..]);
    }

    // A word just opened holds what is pending.
    lemma JustRem()
      requires word == []
      ensures Text() == rem && Growable(e, [])
    {
      EmptyWord(e);
    }

    lemma FlowIs(p: seq<byte>)
      ensures Flows(p) <==> Whole() && Utf8((if isMime then Text() else rem) + p) && Utf8(p)
    {
    }

    lemma ShortWhenUtf8(p: seq<byte>)
      ensures Utf8(p) ==> ShortRuns(p) && MbTail(p) == 0
    {
      hide Utf8, ShortRuns, Tail, IsUtf8Name;
      if Utf8(p) {
        Utf8ShortRuns(p);
      }
    }

    lemma FlowsOn(text: seq<byte>, p: seq<byte>, done: nat)
      requires Utf8(text + p) && Utf8(p) && done <= |p| && IsUtf8() && (done < |p| ==> MbTail(p[done..]) == 0)
      ensures Utf8((text + p[..done]) + p[done..]) && Utf8(p[done..])
    {
      hide Utf8, IsUtf8Name;
      Regroup(text, p[..done], p[done..]);
      assert p[..done] + p[done..] == p;
      assert done < |p| ==> p[done..][0] == p[done];
      Utf8Split(p, done);
    }

    // The refill loop of mime_word_enc: a line break, a new encoded-word and on, until
    // the token is used up. A fresh line always takes something.
    method EncodeAll(p0: seq<byte>)
      requires Ready(p0)
      modifies this`out, this`vpos, this`isMime, this`segs, this`word, this`rem
      ensures Between() && isMime && out != []
      ensures !old(Overwrites(p0)) ==> Now() + rem == old(Sum()) + p0
      ensures old(Overwrites(p0)) ==> Now() == old(Now()) && rem == p0
      ensures Spoiled() <==> old(Spoiled()) || (e.Q? && QM in p0)
      ensures (Hollow() <==> old(Hollow() || FitsNothing(p0))) && Plains() == old(Plains())
      ensures p0 != [] ==> !OpenEmpty()
      ensures Whole() ==> old(Whole())
      ensures IsUtf8() && old(Flows(p0)) && !old(Overwrites(p0)) ==> if old(Splits(p0)) then !Whole() else Flows([])
      ensures old(Settles(p0)) && rem != [] ==> vpos + 6 <= limit
      ensures old(TopsUp(p0)) ==> At(old(vpos) + QUANTUM, [p0[2]])
      ensures old(OnThisLine(|p0|)) ==> Placed(old(vpos), p0)
    {
      hide Growable, Closable, Pieces, Layout, Shown, Render, Now, MbTail, ShortRuns, Column, LinesFit,
        FoldsBlank, EndsInWord, Spoiled, IsUtf8Name, Overwrites, OnThisLine, Placed, Sum, Ready, Ok, Hollow,
        FitsNothing, OpenEmpty, Whole, Flows, Splits, Held, Settles, TopsUp, Text, At, Utf8, WordPayload, Plains;
      PlainOverwritesNothing(p0);
      var p := p0;
      ghost var used: seq<byte> := [];
      NothingAdded(Sum());
      NothingAdded(p0);
      while true
        invariant Ready(p) && p0 == used + p && (p0 != [] ==> p != [])
        invariant Overwrites(p) == old(Overwrites(p0)) && (Overwrites(p) ==> used == [] && Now() == old(Now()))
        invariant !Overwrites(p) ==> Sum() == old(Sum()) + used
        invariant Spoiled() <==> old(Spoiled()) || (e.Q? && QM in used)
        invariant (Hollow() || FitsNothing(p) <==> old(Hollow() || FitsNothing(p0))) && Plains() == old(Plains())
        invariant Whole() ==> old(Whole())
        invariant IsUtf8() && old(Flows(p0)) && !old(Overwrites(p0)) ==>
                    if old(Splits(p0)) && !Splits(p) then !Whole() else Flows(p)
        invariant Splits(p) ==> old(Splits(p0))
        invariant old(Settles(p0)) ==> Settles(p)
        invariant old(TopsUp(p0)) ==> p == p0 && TopsUp(p) && vpos == old(vpos)
        invariant old(OnThisLine(|p0|)) ==> p == p0 && OnThisLine(|p|) && vpos == old(vpos)
        decreases |p|, vpos != 0 || isMime
      {
        assert used == [] ==> p == p0;
        SplitsHeld(p);
        var done := FillLine(p);
        PlainOverwritesNothing(p);
        Regroup(old(Sum()), used, p[..done]);
        used := used + p[..done];
        p := p[done..];
        if p == [] {
          NothingAdded(used);
          break;
        }
        NextLine(p);
      }
    }

    // The word is closed and a line started for the rest of the piece.
    method NextLine(p: seq<byte>)
      requires Ok() && isMime && !EndsLine(out) && p != [] && (rem != [] ==> |p| >= 3)
      requires e.Q? ==> MbTail(p) == 0 && (IsUtf8() ==> ShortRuns(p))
      modifies this`out, this`vpos, this`isMime, this`segs
      ensures Ready(p) && !isMime && vpos == 0 && !FitsNothing(p) && !Overwrites(p) && Settles(p) && !Splits(p)
      ensures Sum() == old(Sum()) && Spoiled() == old(Spoiled()) && (Hollow() <==> old(Hollow() || word == []))
      ensures (Whole() ==> old(Whole())) && Plains() == old(Plains())
      ensures old(Flows(p)) ==> if rem != [] && IsContinuation(rem[0]) then !Whole() else Flows(p)
    {
      hide Closable, Pieces, Layout, Shown, Render, Now, MbTail, ShortRuns, Column, LinesFit, FoldsBlank,
        EndsInWord, Spoiled, IsUtf8Name, Overwrites, Sum, Ready, Ok, Hollow, FitsNothing, Whole, Flows, Splits,
        Settles, Text, Utf8, WordPayload, Plains;
      Closing(p);
      LineBreak();
      PlainOverwritesNothing(p);
      FreshReady(p);
      Resettled(p);
    }

    lemma SplitsHeld(p: seq<byte>)
      ensures Splits(p) <==> Held(p) && IsContinuation(rem[0])
      ensures Held(p) ==> rem != []
    {
    }

    // The word is closed before the piece to come: it is made of whole characters unless the
    // bytes pending begin inside one.
    lemma Closing(p: seq<byte>)
      requires isMime && p != []
      ensures Flows(p) ==> (Utf8(WordPayload(e, word)) <==> rem == [] || !IsContinuation(rem[0]))
      ensures Flows(p) && (rem == [] || !IsContinuation(rem[0])) ==> Whole() && Utf8(rem + p) && Utf8(p)
    {
      hide Utf8, WordPayload;
      var w := WordPayload(e, word);
      if Flows(p) {
        var rest := rem + p;
        Regroup(w, rem, p);
        Utf8Starts(p);
        assert (w + rest)[..|w|] == w && (w + rest)[|w|..] == rest && (w + rest)[|w|] == rest[0];
        if !IsContinuation(rest[0]) {
          Utf8Split(w + rest, |w|);
        } else if Utf8(w) {
          Utf8Rest(w, rest);
          Utf8Starts(rest);
        }
      }
    }

    static lemma Utf8Starts(p: seq<byte>)
      ensures Utf8(p) && p != [] ==> !IsContinuation(p[0])
    {
    }

    // On a fresh line nothing is held.
    lemma Resettled(p: seq<byte>)
      requires !isMime
      ensures Settles(p) && !Splits(p) && (Flows(p) <==> Whole() && Utf8(rem + p) && Utf8(p))
    {
      hide Utf8;
    }

    // A fresh line, with nothing pending or enough to come for a quantum.
    lemma FreshReady(p: seq<byte>)
      requires Ok() && !isMime && vpos == 0 && (rem != [] ==> |p| >= 3 && AfterWord())
      requires e.Q? ==> MbTail(p) == 0 && (IsUtf8() ==> ShortRuns(p))
      ensures Ready(p) && !FitsNothing(p)
    {
      hide Pieces, Layout, MbTail, ShortRuns, IsUtf8Name;
    }

    lemma PlainOverwritesNothing(p: seq<byte>)
      ensures !isMime ==> !Overwrites(p)
      ensures isMime ==> Sum() == Now() + rem
    {
    }

    // charset_is_7bit
    method Is7Bit(s: seq<byte>) returns (yes: bool)
      ensures yes == SevenBit(s)
    {
      var i := 0;
      while i < |s|
        invariant 0 <= i <= |s| && SevenBit(s[..i])
      {
        if s[i] >= 0x80 {
          return false;
        }
        i := i + 1;
      }
      assert s[..i] == s;
      yes := true;
    }

    // The scan for the first non-space in mime_word_calc_len.
    method SkipSpaces(token: seq<byte>) returns (p: seq<byte>)
      ensures p == Trim(token)
    {
      var i := 0;
      assert token[0..] == token;
      while i < |token| && IsSpace(token[i])
        invariant 0 <= i <= |token| && Trim(token) == Trim(token[i..])
      {
        assert token[i..][1..] == token[i + 1..];
        i := i + 1;
      }
      p := token[i..];
    }

    // mime_header_enc_end: flush what is pending, close, end the last line.
    method End() returns (dst: seq<byte>)
      requires Between() && out != []
      modifies this`out, this`vpos, this`isMime, this`segs, this`word, this`rem
      ensures dst == Render(e, charset, segs) + [NL]
      ensures LinesFit(dst, limit) && FoldsBlank(dst)
      ensures WordsOk(e, charset, segs)
      ensures Shown(e, segs) == old(Now() + rem)
      ensures AnyMarked(segs) == old(Spoiled())
      ensures (Word([]) in segs <==> old(Hollow() || OpenEmpty())) && PlainTexts(segs) == old(Plains())
      ensures (WholeWords(e, segs) ==> old(Whole())) && (old(Sane()) ==> WholeWords(e, segs))
    {
      hide Growable, Shown, Render, Column, LinesFit, FoldsBlank, TextOk, WordsOk, AnyMarked, WholeWords, Sane,
        PlainTexts;
      SwitchToPlain();
      AppendFold(out, limit);
      FoldAfterText(out);
      assert Render(e, charset, segs) + [] == Render(e, charset, segs);
      dst := out + [NL];
    }

    lemma TailWithin(p: seq<byte>)
      ensures MbTail(p) <= |p|
    {
    }
  }

  // Going on from where the sum was struck, with nothing pending or nothing more added.
  lemma Resume(now: seq<byte>, rem: seq<byte>, p: seq<byte>, done: nat, more: nat, now1: seq<byte>, rem1: seq<byte>)
    requires done + more <= |p| && now1 + rem1 == now + (rem + p[..done])
    ensures rem1 == [] ==> now1 + p[done..][..more] == now + (rem + p[..done + more])
    ensures more == 0 ==> now1 + p[done..][..more] + rem1 == now + (rem + p[..done + more])
    ensures now1 + [] == now1
  {
    assert p[..done + more] == p[..done] + p[done..][..more];
    assert now1 + [] == now1;
  }

  // ---- the whole header ----

  const LIMIT := 76                // MIME_STRING_LIMIT

  // For Q with UTF-8, only whole characters in a token to be encoded.
  ghost predicate TokensOk(e: Encoding, charset: seq<byte>, ts: seq<seq<byte>>) {
    e.Q? && IsUtf8Name(charset) ==>
      forall i :: 0 <= i < |ts| && !StaysPlain(ts[i], LIMIT) ==> ShortRuns(ts[i]) && Tail(Trim(ts[i])) == 0
  }

  // A token a reader takes for something else: a plain one that holds what looks like an
  // encoded-word, a Q-encoded one with a question mark.
  predicate TokenMisread(e: Encoding, t: seq<byte>, limit: nat) {
    if StaysPlain(t, limit) then HasWord(t) else e.Q? && QM in t
  }

  predicate TokensMisread(e: Encoding, ts: seq<seq<byte>>) {
    exists i :: 0 <= i < |ts| && TokenMisread(e, ts[i], LIMIT)
  }

  lemma TokensMisreadSnoc(e: Encoding, ts: seq<seq<byte>>, t: seq<byte>)
    ensures TokensMisread(e, ts + [t]) <==> TokensMisread(e, ts) || TokenMisread(e, t, LIMIT)
    ensures !TokensMisread(e, [])
  {
    hide TokenMisread;
    var all := ts + [t];
    assert all[|ts|] == t;
    if i :| 0 <= i < |ts| && TokenMisread(e, ts[i], LIMIT) {
      assert TokenMisread(e, all[i], LIMIT);
    }
  }

  // A token of a blank and one eight-bit byte, after an encoded one: only such a token can
  // overwrite pending bytes.
  predicate Risky(e: Encoding, ts: seq<seq<byte>>) {
    e.B? && exists i :: 1 <= i < |ts| && |ts[i]| == 2 && !SevenBit(ts[i]) && !StaysPlain(ts[i - 1], LIMIT)
  }

  lemma RiskySnoc(e: Encoding, ts: seq<seq<byte>>, t: seq<byte>)
    ensures Risky(e, ts) ==> Risky(e, ts + [t])
    ensures e.B? && LastEncoded(ts, LIMIT) && |t| == 2 && !SevenBit(t) ==> Risky(e, ts + [t])
  {
    hide SevenBit, StaysPlain;
    var all := ts + [t];
    if Risky(e, ts) {
      var i :| 1 <= i < |ts| && |ts[i]| == 2 && !SevenBit(ts[i]) && !StaysPlain(ts[i - 1], LIMIT);
      assert all[i] == ts[i] && all[i - 1] == ts[i - 1];
    }
    assert all[|ts|] == t;
    assert ts != [] ==> all[|ts| - 1] == ts[|ts| - 1];
  }

  // A token that may make the encoder close an encoded-word with nothing in it: an encoded one
  // that is too long to be kept pending, for Q in UTF-8 alone; or all white space.
  predicate MayCloseEmpty(e: Encoding, charset: seq<byte>, t: seq<byte>) {
    !StaysPlain(t, LIMIT) && (Trim(t) == [] || if e.B? then |t| >= 3 else IsUtf8Name(charset))
  }

  predicate Crowded(e: Encoding, charset: seq<byte>, ts: seq<seq<byte>>) {
    exists i :: 0 <= i < |ts| && MayCloseEmpty(e, charset, ts[i])
  }

  lemma CrowdedSnoc(e: Encoding, charset: seq<byte>, ts: seq<seq<byte>>, t: seq<byte>)
    ensures Crowded(e, charset, ts + [t]) <==> Crowded(e, charset, ts) || MayCloseEmpty(e, charset, t)
  {
    hide MayCloseEmpty;
    var all := ts + [t];
    assert all[|ts|] == t;
    if i :| 0 <= i < |ts| && MayCloseEmpty(e, charset, ts[i]) {
      assert MayCloseEmpty(e, charset, all[i]);
    }
  }

  predicate AllUtf8(ts: seq<seq<byte>>) {
    forall i :: 0 <= i < |ts| ==> Utf8(ts[i])
  }

  // A token with eight-bit bytes right after an encoded one: only there can a character be split.
  predicate Adjoining(e: Encoding, ts: seq<seq<byte>>) {
    e.B? && exists i :: 1 <= i < |ts| && !SevenBit(ts[i]) && !StaysPlain(ts[i - 1], LIMIT)
  }

  lemma AdjoiningSnoc(e: Encoding, ts: seq<seq<byte>>, t: seq<byte>)
    ensures Adjoining(e, ts) ==> Adjoining(e, ts + [t])
    ensures e.B? && LastEncoded(ts, LIMIT) && !SevenBit(t) ==> Adjoining(e, ts + [t])
    ensures AllUtf8(ts + [t]) ==> AllUtf8(ts) && Utf8(t)
  {
    hide SevenBit, StaysPlain, Utf8;
    var all := ts + [t];
    if Adjoining(e, ts) {
      var i :| 1 <= i < |ts| && !SevenBit(ts[i]) && !StaysPlain(ts[i - 1], LIMIT);
      assert all[i] == ts[i] && all[i - 1] == ts[i - 1];
    }
    assert all[|ts|] == t;
    assert ts != [] ==> all[|ts| - 1] == ts[|ts| - 1];
    assert forall i :: 0 <= i < |ts| ==> all[i] == ts[i];
  }

  // What a token adds does not depend on what is shown before it.
  lemma SameGrowth(a: seq<byte>, b: seq<byte>, w: bool, t: seq<byte>, limit: nat)
    ensures |ShowToken(a, w, t, limit)| - |a| == |ShowToken(b, w, t, limit)| - |b|
    ensures w && !SevenBit(t) ==> |ShowToken(a, w, t, limit)| == |a| + |t|
  {
  }

  // Where the encoder stands after these tokens: what is shown and pending is what they ask
  // for, but for the bytes overwritten.
  ghost predicate Fed(state: WordState, done: seq<seq<byte>>, lost: nat)
    reads state
  {
    var shown, expected := state.Now() + state.rem, Expected(done, LIMIT);
    && state.Between() && state.limit == LIMIT
    && (state.AfterWord() ==> state.isMime) && (state.AfterWord() <==> LastEncoded(done, LIMIT))
    && |shown| + lost == |expected| && (lost == 0 ==> shown == expected)
    && (lost > 0 ==> Risky(state.e, done))
    && (state.Spoiled() <==> TokensMisread(state.e, done))
    && (state.Hollow() || state.OpenEmpty() ==> Crowded(state.e, state.charset, done))
    && (IsUtf8Name(state.charset) && AllUtf8(done) ==> state.Sane() || (!state.Whole() && Adjoining(state.e, done)))
    && (done == [] <==> state.out == []) && state.Plains() == PlainTokens(done)
  }

  lemma FedNothing(state: WordState)
    requires state.Between() && !state.isMime && state.rem == [] && state.out == [] && state.Now() == []
    requires !state.AfterWord() && !state.Spoiled() && !state.Hollow() && state.Sane() && state.limit == LIMIT
    requires state.Plains() == []
    ensures Fed(state, [], 0)
  {
    hide WordState.Between, WordState.Now, WordState.AfterWord, WordState.Spoiled, TokensMisread, Expected,
      LastEncoded;
    ExpectedNothing(LIMIT);
    TokensMisreadSnoc(state.e, [], []);
  }

  // One token more.
  method FeedToken(state: WordState, token: seq<byte>, ghost done: seq<seq<byte>>, ghost lost: nat)
      returns (ghost more: nat)
    requires Fed(state, done, lost) && token != [] && NL !in token && (done != [] ==> Spaced(token))
    requires TokensOk(state.e, state.charset, [token])
    modifies state`out, state`vpos, state`isMime, state`segs, state`word, state`rem
    ensures Fed(state, done + [token], lost + more)
  {
    hide Expected, ShortRuns, Tail, Trim, SevenBit, WordState.Between, WordState.Now, WordState.AfterWord,
      WordState.Spoiled, TokensMisread, TokenMisread, Risky, LastEncoded, ShowToken, StaysPlain,
      WordState.OnThisLine, Spaced, WordState.ClosesEmpty, Crowded, MayCloseEmpty, WordState.Hollow,
      WordState.OpenEmpty, WordState.Sane, WordState.Whole, WordState.Splits, AllUtf8, Adjoining, IsUtf8Name,
      WordState.TopsUp, WordState.Plains;
    ghost var shown, w, pending := state.Now() + state.rem, state.AfterWord(), |state.rem|;
    more := if state.Overwrites(token) && !SevenBit(token) then pending else 0;
    InMime(state);
    WhenEmptied(state, token);
    SplitsInside(state, token);
    assert StaysPlain([token][0], LIMIT) == StaysPlain(token, LIMIT);
    state.WordEnc(token);
    ExpectedSnoc(done, token, LIMIT);
    TokensMisreadSnoc(state.e, done, token);
    RiskySnoc(state.e, done, token);
    CrowdedSnoc(state.e, state.charset, done, token);
    PlainTokensSnoc(done, token);
    AdjoiningSnoc(state.e, done, token);
    SameGrowth(shown, Expected(done, LIMIT), w, token, LIMIT);
  }

  // The loop of mime_header_enc: token by token from the first space on. `lost` counts the
  // bytes overwritten.
  method FeedTokens(state: WordState, src: seq<byte>, firstEnd: nat) returns (ghost lost: nat)
    requires Fed(state, [], 0)
    requires SP in src && NL !in src && firstEnd == FirstSpace(src, 0) && src[0] != SP
    requires TokensOk(state.e, state.charset, Tokens(src))
    modifies state`out, state`vpos, state`isMime, state`segs, state`word, state`rem
    ensures Fed(state, Tokens(src), lost)
  {
    hide TokensFrom, Skip, Fed, TokensOk, Spaced, FirstSpace;
    lost := 0;
    var start: nat, end: nat := 0, firstEnd;
    ghost var all := Tokens(src);
    ghost var done: seq<seq<byte>> := [];
    ghost var left := TokensFrom(src, end);
    TokensShape(src, end);
    assert all == [] + [src[..end]] + left;
    var more := true;
    while more
      invariant Fed(state, done, lost)
      invariant start <= end <= |src| && (more ==> start < end)
      invariant more ==> all == done + [src[start..end]] + left && left == TokensFrom(src, end)
      invariant more && done != [] ==> Spaced(src[start..end])
      invariant more && end < |src| ==> IsBlank(src[end])
      invariant !more ==> done == all
      decreases |src| - start, more
    {
      var token := src[start..end];
      assert all[|done|] == token;
      OneTokenOk(state.e, state.charset, all, |done|);
      ghost var overwritten := FeedToken(state, token, done, lost);
      lost := lost + overwritten;
      done := done + [token];
      start := end;
      end := PassBlanks(src, end, true);
      TokensStep(src, start);
      if end == |src| {
        assert left == [];
        assert done + [] == done;
        more := false;
      } else {
        end := PassBlanks(src, end, false);
        TokensShape(src, start);
        left := TokensFrom(src, end);
        assert all == done + [src[start..end]] + left;
      }
    }
  }

  lemma OneTokenOk(e: Encoding, charset: seq<byte>, ts: seq<seq<byte>>, i: nat)
    requires i < |ts| && TokensOk(e, charset, ts)
    ensures TokensOk(e, charset, [ts[i]])
  {
    hide ShortRuns, Tail, Trim, IsUtf8Name, StaysPlain;
  }

  lemma SplitsInside(state: WordState, t: seq<byte>)
    ensures state.Splits(t) ==> state.e.B? && state.isMime
  {
  }

  lemma WhenEmptied(state: WordState, t: seq<byte>)
    requires state.Between() && state.limit == LIMIT
    ensures state.ClosesEmpty(t) ==> state.OpenEmpty() || MayCloseEmpty(state.e, state.charset, t)
    ensures !StaysPlain(t, LIMIT) && Trim(t) == [] ==> MayCloseEmpty(state.e, state.charset, t)
  {
    hide Growable, WordState.Pieces, WordState.Layout, Trim, SevenBit, WordState.MbTail, IsUtf8Name;
  }

  lemma InMime(state: WordState)
    ensures state.isMime ==> state.AfterWord()
  {
  }

  // mime_header_enc. `segs` says how the output is made up, `lost` how many bytes were overwritten.
  method HeaderEnc(e: Encoding, charset: seq<byte>, header: seq<byte>)
      returns (r: Option<seq<byte>>, ghost segs: seq<Seg>, ghost lost: nat)
    requires |charset| <= 56 && NL !in charset
    requires SP in Unfold(header, []) ==>
               Unfold(header, [])[0] != SP && TokensOk(e, charset, Tokens(Unfold(header, [])))
    ensures r.None? <==> SP !in Unfold(header, [])
    ensures r.Some? ==>
              && r.value == Render(e, charset, segs) + [NL]
              && LinesFit(r.value, LIMIT) && FoldsBlank(r.value)
              && WordsOk(e, charset, segs)
    ensures r.Some? ==>
              var ts := Tokens(Unfold(header, []));
              && Solid(Flatten(ts)) == Solid(header) && PlainTexts(segs) == PlainTokens(ts)
              && |Shown(e, segs)| + lost == |Expected(ts, LIMIT)|
              && (lost == 0 ==> Shown(e, segs) == Expected(ts, LIMIT) && Ink(Shown(e, segs)) == Ink(header))
              && (lost > 0 ==> Risky(e, ts))
              && (Word([]) in segs ==> Crowded(e, charset, ts))
              && (IsUtf8Name(charset) && AllUtf8(ts) ==> WholeWords(e, segs) || Adjoining(e, ts))
    // A reader finds the encoded-words meant, exactly when no token is misread and none of them is
    // empty; then it shows what the tokens ask for, unless bytes were overwritten.
    ensures r.Some? && IsName(charset) ==>
              var ts := Tokens(Unfold(header, []));
              && Ascii(r.value)
              && (Parse(NoFolds(r.value)) == Intended(e, charset, segs) <==> !TokensMisread(e, ts) && Word([]) !in segs)
              && (!TokensMisread(e, ts) && Word([]) !in segs ==> Read(r.value) == Shown(e, segs))
  {
    hide Growable, Shown, Render, Column, LinesFit, FoldsBlank, Closable, WordPayload, Unfold, Expected,
      TokensFrom, ShortRuns, Tail, Trim, Skip, StartsWhole, SevenBit, WordsOk, TokensOk, AnyMarked, AnyMisread,
      TokensMisread, Risky, Crowded, Read, Parse, Intended, NoFolds, IsName, WholeWords, AllUtf8, Adjoining, Ink,
      Solid, Flatten, IsUtf8Name, WordState.Sane, WordState.Whole, PlainTexts;
    var src := HeaderUnfold(header);
    UnfoldHasNoBreaks(header, []);
    segs, lost := [], 0;
    if SP in src {
      TokensSolid(header);
      SolidInk(header);
      SolidInk(Flatten(Tokens(src)));
      ExpectedInk(Tokens(src), LIMIT);
    }
    var end: nat := FindSpace(src);
    if end == |src| {
      return None, segs, lost;
    }
    var state := new WordState(e, charset, LIMIT);
    FedNothing(state);
    lost := FeedTokens(state, src, end);
    var dst := state.End();
    segs := state.segs;
    r := Some(dst);
    if IsName(charset) {
      ReaderAgrees(e, charset, segs, dst);
      MisreadIs(segs);
      assert Ascii(dst) by { AllAscii(e, charset, segs); }
    }
  }

  lemma AllAscii(e: Encoding, charset: seq<byte>, segs: seq<Seg>)
    requires IsName(charset) && WordsOk(e, charset, segs)
    ensures Ascii(Render(e, charset, segs) + [NL])
  {
    hide PiecesOk, TextOk, Render;
    OutputIsAscii(e, charset, segs);
  }

  lemma ReaderAgrees(e: Encoding, charset: seq<byte>, segs: seq<Seg>, dst: seq<byte>)
    requires IsName(charset) && WordsOk(e, charset, segs) && dst == Render(e, charset, segs) + [NL]
    ensures Parse(NoFolds(dst)) == Intended(e, charset, segs) <==> !AnyMisread(segs)
    ensures !AnyMisread(segs) ==> Read(dst) == Shown(e, segs)
  {
    hide Parse, Intended, AnyMisread, Show, Shown, IsName, PiecesOk, TextOk;
    var out := Render(e, charset, segs);
    NoFoldsBoth(out, [NL]);
    assert NoFolds([NL]) == [] by { NoFoldOnly(); }
    assert NoFolds(out) + [] == NoFolds(out);
    ReaderFindsWords(e, charset, segs);
    if !AnyMisread(segs) {
      ReaderShows(e, charset, segs);
    }
  }

  lemma NoFoldOnly()
    ensures NoFolds([NL]) == []
  {
    assert [NL][1..] == [] && NoFolds([]) == [];
  }

  lemma OctetMark(b: byte)
    ensures QM in QOctet(b) <==> b == QM
  {
  }

  lemma {:induction false} TrimMarks(t: seq<byte>)
    ensures QM in Trim(t) <==> QM in t
  {
    if t != [] && IsSpace(t[0]) {
      TrimMarks(t[1..]);
      InTail(t);
    }
  }

  lemma InTail(t: seq<byte>)
    requires t != [] && t[0] != QM
    ensures QM in t[1..] <==> QM in t
  {
    assert t == [t[0]] + t[1..];
  }

  // strchr(src, ' ')
  method FindSpace(src: seq<byte>) returns (i: nat)
    ensures i == FirstSpace(src, 0) && (i < |src| <==> SP in src)
  {
    i := 0;
    while i < |src| && src[i] != SP
      invariant i <= |src| && SP !in src[..i] && FirstSpace(src, 0) == FirstSpace(src, i)
    {
      i := i + 1;
    }
    assert i == |src| ==> src[..i] == src;
  }

  // The scans for the next token's start and end.
  method PassBlanks(src: seq<byte>, from: nat, blank: bool) returns (i: nat)
    requires from <= |src|
    ensures i == Skip(src, from, blank)
  {
    i := from;
    while i < |src| && IsBlank(src[i]) == blank
      invariant from <= i <= |src| && Skip(src, from, blank) == Skip(src, i, blank)
    {
      i := i + 1;
    }
  }

  lemma TokensStep(src: seq<byte>, i: nat)
    requires i <= |src|
    ensures var j := Skip(src, i, true);
      TokensFrom(src, i) == if j == |src| then [] else [src[i..Skip(src, j, false)]] + TokensFrom(src, Skip(src, j, false))
    ensures var j := Skip(src, i, true);
      j < |src| ==> i <= j < Skip(src, j, false) && (Skip(src, j, false) < |src| ==> IsBlank(src[Skip(src, j, false)]))
  {
  }

  lemma ExpectedNothing(limit: nat)
    ensures Expected([], limit) == [] && !LastEncoded([], limit)
  {
  }

  lemma ExpectedSnoc(ts: seq<seq<byte>>, t: seq<byte>, limit: nat)
    ensures Expected(ts + [t], limit) == ShowToken(Expected(ts, limit), LastEncoded(ts, limit), t, limit)
    ensures LastEncoded(ts + [t], limit) <==> !StaysPlain(t, limit)
  {
    assert (ts + [t])[..|ts|] == ts;
  }

  // A header is shown whole, but for blanks at its end, exactly when every token keeps its blanks.
  lemma HeaderShown(src: seq<byte>) returns (k: nat)
    requires SP in src && src[0] != SP
    ensures k <= |src| && Skip(src, k, true) == |src| && Flatten(Tokens(src)) == src[..k]
    ensures Expected(Tokens(src), LIMIT) == src[..k] <==>
            forall i :: 0 <= i < |Tokens(src)| ==> KeepsBlanks(Tokens(src), LIMIT, i)
  {
    hide Expected, KeepsBlanks, Flatten, Skip, TokensFrom;
    var end := FirstSpace(src, 0);
    var ts, rest := Tokens(src), TokensFrom(src, end);
    TokensShape(src, end);
    TokensCover(src, end);
    k :| end <= k <= |src| && Flatten(rest) == src[end..k] && Skip(src, k, true) == |src|;
    FlattenBoth([src[..end]], rest);
    FlattenOne(src[..end]);
    assert src[..end] + src[end..k] == src[..k];
    assert forall i :: 1 <= i < |ts| ==> ts[i] == rest[i - 1];
    ExpectedIsSource(ts, LIMIT);
  }

  // UTF-8 headers meet every condition, for either encoding.
  lemma Utf8HeaderOk(e: Encoding, charset: seq<byte>, header: seq<byte>)
    requires Utf8(header) && SP in Unfold(header, [])
    ensures TokensOk(e, charset, Tokens(Unfold(header, []))) && !Risky(e, Tokens(Unfold(header, [])))
    ensures AllUtf8(Tokens(Unfold(header, [])))
  {
    hide Utf8, Tokens, Unfold, TokensOk, Risky, Spaced;
    var src := Unfold(header, []);
    assert [] + header == header;
    UnfoldUtf8(header, []);
    TokensAreUtf8(src);
    WholeTokens(e, charset, Tokens(src));
    NoShortTokens(e, Tokens(src));
  }

  lemma WholeTokens(e: Encoding, charset: seq<byte>, ts: seq<seq<byte>>)
    requires forall i :: 0 <= i < |ts| ==> Utf8(ts[i])
    ensures TokensOk(e, charset, ts)
  {
    hide Utf8, Tail, Trim, ShortRuns, StaysPlain, IsUtf8Name;
    forall i | 0 <= i < |ts| ensures ShortRuns(ts[i]) && Tail(Trim(ts[i])) == 0 {
      WholeToken(ts[i]);
    }
  }

  lemma WholeToken(t: seq<byte>)
    requires Utf8(t)
    ensures ShortRuns(t) && Tail(Trim(t)) == 0
  {
    hide Utf8, Tail, Trim, ShortRuns;
    Utf8ShortRuns(t);
    TrimUtf8(t);
    Utf8ShortRuns(Trim(t));
  }

  // A blank and one byte are no UTF-8 with an eight-bit byte in it.
  lemma NoShortTokens(e: Encoding, ts: seq<seq<byte>>)
    requires forall i :: 0 <= i < |ts| ==> Utf8(ts[i])
    requires forall i :: 1 <= i < |ts| ==> Spaced(ts[i])
    ensures !Risky(e, ts)
  {
    hide Utf8, SevenBit, StaysPlain;
    if Risky(e, ts) {
      var i :| 1 <= i < |ts| && |ts[i]| == 2 && !SevenBit(ts[i]) && !StaysPlain(ts[i - 1], LIMIT);
      BlankFirst(ts[i]);
    }
  }

  lemma TokensAreUtf8(src: seq<byte>)
    requires Utf8(src) && SP in src
    ensures forall i :: 0 <= i < |Tokens(src)| ==> Utf8(Tokens(src)[i])
    ensures forall i :: 1 <= i < |Tokens(src)| ==> Spaced(Tokens(src)[i])
  {
    hide Utf8, TokensFrom, Spaced;
    var end := FirstSpace(src, 0);
    assert end < |src| ==> src[end] < 0x80;
    Utf8Split(src, end);
    TokensUtf8(src, end);
    TokensShape(src, end);
    var ts, rest := Tokens(src), TokensFrom(src, end);
    assert forall i :: 1 <= i < |ts| ==> ts[i] == rest[i - 1];
  }

  lemma BlankFirst(t: seq<byte>)
    requires Utf8(t) && t != [] && t[0] < 0x80 && !SevenBit(t)
    ensures |t| >= 3
  {
    EightBitIsLong(t[1..]);
  }

  lemma SuffixShortRuns(p: seq<byte>, n: nat)
    requires n <= |p| && ShortRuns(p)
    ensures ShortRuns(p[n..])
  {
    forall i | 0 <= i <= |p| - n
      ensures Tail(p[n..][i..]) <= 3
    {
      assert p[n..][i..] == p[n + i..];
    }
  }

  lemma ColumnZero(out: seq<byte>)
    ensures Column(out) == 0 <==> out == [] || EndsLine(out)
  {
  }

  lemma PrefixHasNoFold(e: Encoding, charset: seq<byte>)
    requires NL !in charset
    ensures NL !in WordPrefix(e, charset)
  {
  }

  lemma BlankAfterFold(out: seq<byte>, text: seq<byte>)
    requires FoldsBlank(out) && NL !in text && (EndsLine(out) && text != [] ==> IsBlank(text[0]))
    ensures FoldsBlank(out + text) && (EndsLine(out + text) ==> text == [])
  {
    var all := out + text;
    assert forall k :: |out| <= k < |all| ==> all[k] == text[k - |out|];
    if text != [] {
      assert all[|all| - 1] == text[|text| - 1];
    }
  }

  lemma FoldAfterText(out: seq<byte>)
    requires FoldsBlank(out) && !EndsLine(out)
    ensures FoldsBlank(out + [NL])
  {
  }
}
