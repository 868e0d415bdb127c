// What a reader makes of an encoded header: the bytes are unfolded, cut at white space, and
// each run of other bytes is an encoded-word or not (sections 2, 5 and 6 of RFC 2047).
module MimeReader {
  import opened Common
  import opened Base64
  import opened MimeText

  // ( ) < > @ , ; : \ " / [ ] ? . =
  const ESPECIALS: seq<byte> := [40, 41, 60, 62, 64, 44, 59, 58, 92, 34, 47, 91, 93, 63, 46, 61]

  // The name of a charset or an encoding.
  predicate IsName(s: seq<byte>) {
    s != [] && forall i :: 0 <= i < |s| ==> 33 <= s[i] <= 126 && s[i] !in ESPECIALS
  }

  predicate Printable(t: seq<byte>) {
    forall i :: 0 <= i < |t| ==> 33 <= t[i] <= 126
  }

  datatype Run = Raw(text: seq<byte>) | Coded(charset: seq<byte>, enc: seq<byte>, text: seq<byte>)

  // The first question mark at or after i.
  function Mark(s: seq<byte>, i: nat): (j: nat)
    requires i <= |s|
    ensures i <= j <= |s| && QM !in s[i..j] && (j < |s| ==> s[j] == QM)
    decreases |s| - i
  {
    if i == |s| || s[i] == QM then i else Mark(s, i + 1)
  }

  // An encoded-word is "=?charset?encoding?text?=", the text without question marks and not
  // empty.
  function Classify(r: seq<byte>): Run {
    if |r| < 4 || r[0] != EQ || r[1] != QM then Raw(r)
    else
      var i := Mark(r, 2);
      if i == |r| then Raw(r)
      else
        var j := Mark(r, i + 1);
        if j + 3 > |r| then Raw(r)
        else
          var text := r[j + 1..|r| - 2];
          if r[|r| - 2..] == WORD_END && IsName(r[2..i]) && IsName(r[i + 1..j])
             && text != [] && Printable(text) && QM !in text
          then Coded(r[2..i], r[i + 1..j], text)
          else Raw(r)
  }

  // How many bytes that are (are not) blank a text starts with.
  function Span(s: seq<byte>, blank: bool): (n: nat)
    ensures n <= |s| && (forall i :: 0 <= i < n ==> IsBlank(s[i]) == blank) && (n < |s| ==> IsBlank(s[n]) != blank)
  {
    if s == [] || IsBlank(s[0]) != blank then 0 else 1 + Span(s[1..], blank)
  }

  // The blanks a text starts with, the run after them, and what follows.
  datatype Cut = Cut(gap: seq<byte>, run: seq<byte>, rest: seq<byte>)

  function Head(s: seq<byte>): (c: Cut)
    ensures |c.gap| + |c.run| + |c.rest| == |s| && (c.run == [] ==> c.rest == [])
  {
    var g := Span(s, true);
    var n := Span(s[g..], false);
    Cut(s[..g], s[g..g + n], s[g + n..])
  }

  function Runs(s: seq<byte>): seq<seq<byte>>
    decreases |s|
  {
    var c := Head(s);
    if c.run == [] then [] else [c.run] + Runs(c.rest)
  }

  function ClassifyAll(rs: seq<seq<byte>>): (c: seq<Run>)
    ensures |c| == |rs| && forall i :: 0 <= i < |rs| ==> c[i] == Classify(rs[i])
  {
    seq(|rs|, i requires 0 <= i < |rs| => Classify(rs[i]))
  }

  function Parse(s: seq<byte>): seq<Run> {
    ClassifyAll(Runs(s))
  }

  // The Q encoding as readers decode it.
  function QDecode(t: seq<byte>): seq<byte> {
    if t == [] then []
    else if EscapeAt(t) then [Escaped(t)] + QDecode(t[3..])
    else [if t[0] == '_' as int then SP else t[0]] + QDecode(t[1..])
  }

  // Of section 4.2 of RFC 2047: an underscore stands for a blank.
  lemma UnderscoreIsBlank(t: seq<byte>)
    requires t != [] && t[0] == 95
    ensures QDecode(t) == [32] + QDecode(t[1..])
  {
  }

  // The bytes an encoded-word stands for; a run that cannot be decoded stands for itself.
  function Decoded(r: Run): Option<seq<byte>> {
    match r
    case Raw(_) => None
    case Coded(_, enc, text) =>
      if enc == ['B' as int] || enc == ['b' as int] then Decode(text)
      else if enc == ['Q' as int] || enc == ['q' as int] then Some(QDecode(text))
      else None
  }

  // What is shown of one run with the blanks before it: blanks between encoded-words are not.
  function ShowRun(gap: seq<byte>, run: seq<byte>, afterWord: bool): seq<byte> {
    var d := Decoded(Classify(run));
    if d.None? then gap + run else (if afterWord then [] else gap) + d.value
  }

  predicate IsWord(run: seq<byte>) {
    Decoded(Classify(run)).Some?
  }

  function Show(s: seq<byte>, afterWord: bool): seq<byte>
    decreases |s|
  {
    var c := Head(s);
    if c.run == [] then c.gap else ShowRun(c.gap, c.run, afterWord) + Show(c.rest, IsWord(c.run))
  }

  // Whether the last run shown is an encoded-word.
  predicate LastCoded(s: seq<byte>, afterWord: bool)
    decreases |s|
  {
    var c := Head(s);
    if c.run == [] then afterWord else LastCoded(c.rest, IsWord(c.run))
  }

  // Unfolding takes the line ends out; the blanks after them stay.
  function NoFolds(s: seq<byte>): (r: seq<byte>)
    ensures NL !in r
  {
    if s == [] then [] else (if s[0] == NL then [] else [s[0]]) + NoFolds(s[1..])
  }

  function Read(out: seq<byte>): seq<byte> {
    Show(NoFolds(out), false)
  }

  // ---- cutting at white space ----

  predicate StartsBlank(b: seq<byte>) {
    b == [] || IsBlank(b[0])
  }

  lemma {:induction false} SpanIs(s: seq<byte>, blank: bool, n: nat)
    requires n <= |s| && (forall i :: 0 <= i < n ==> IsBlank(s[i]) == blank) && (n < |s| ==> IsBlank(s[n]) != blank)
    ensures Span(s, blank) == n
  {
    if n > 0 {
      SpanIs(s[1..], blank, n - 1);
    }
  }

  predicate AllBlank(s: seq<byte>, blank: bool) {
    forall i :: 0 <= i < |s| ==> IsBlank(s[i]) == blank
  }

  lemma HeadIs(s: seq<byte>, c: Cut)
    requires s == c.gap + c.run + c.rest && AllBlank(c.gap, true) && AllBlank(c.run, false)
    requires StartsBlank(c.rest) && (c.run == [] ==> c.rest == [])
    ensures Head(s) == c
  {
    var g, n := |c.gap|, |c.run|;
    SpanIs(s, true, g);
    assert s[g..] == c.run + c.rest;
    SpanIs(s[g..], false, n);
    assert s[..g] == c.gap && s[g..g + n] == c.run && s[g + n..] == c.rest;
  }

  lemma HeadShape(s: seq<byte>)
    ensures var c := Head(s);
      s == c.gap + c.run + c.rest && AllBlank(c.gap, true) && AllBlank(c.run, false) && StartsBlank(c.rest)
  {
    hide AllBlank, StartsBlank, Span;
    var g := Span(s, true);
    var n := Span(s[g..], false);
    SpanShape(s, true);
    SpanShape(s[g..], false);
    CutJoins(s, g, n);
  }

  lemma CutJoins(s: seq<byte>, g: nat, n: nat)
    requires g + n <= |s|
    ensures s == s[..g] + s[g..g + n] + s[g + n..]
    ensures s[g..][..n] == s[g..g + n] && s[g..][n..] == s[g + n..]
  {
  }

  lemma SpanShape(s: seq<byte>, blank: bool)
    ensures AllBlank(s[..Span(s, blank)], blank)
    ensures !blank ==> StartsBlank(s[Span(s, blank)..])
  {
    hide Span;
  }

  // The first run of a + b, when b starts with a blank, is that of a, if a has one.
  lemma HeadBoth(a: seq<byte>, b: seq<byte>)
    requires StartsBlank(b)
    ensures var c, d := Head(a), Head(b);
      Head(a + b) == if c.run == [] then Cut(a + d.gap, d.run, d.rest) else Cut(c.gap, c.run, c.rest + b)
  {
    hide Head;
    var c, d := Head(a), Head(b);
    HeadShape(a);
    HeadShape(b);
    if c.run == [] {
      assert a == c.gap + [] + [] == c.gap;
      assert a + b == (a + d.gap) + d.run + d.rest;
      HeadIs(a + b, Cut(a + d.gap, d.run, d.rest));
    } else {
      assert a + b == c.gap + c.run + (c.rest + b);
      HeadIs(a + b, Cut(c.gap, c.run, c.rest + b));
    }
  }

  lemma {:induction false} RunsBoth(a: seq<byte>, b: seq<byte>)
    requires StartsBlank(b)
    ensures Runs(a + b) == Runs(a) + Runs(b)
    decreases |a|
  {
    hide Head;
    HeadBoth(a, b);
    var c := Head(a);
    if c.run == [] {
      assert [] + Runs(b) == Runs(b);
    } else {
      RunsBoth(c.rest, b);
      assert [c.run] + (Runs(c.rest) + Runs(b)) == [c.run] + Runs(c.rest) + Runs(b);
    }
  }

  // Blanks at the end of a are only harmless where they are shown.
  predicate EndsClean(a: seq<byte>, w: bool) {
    a == [] || !IsBlank(a[|a| - 1]) || !LastCoded(a, w)
  }

  lemma {:induction false} ShowBoth(a: seq<byte>, b: seq<byte>, w: bool)
    requires StartsBlank(b) && EndsClean(a, w)
    ensures Show(a + b, w) == Show(a, w) + Show(b, LastCoded(a, w))
    ensures LastCoded(a + b, w) == LastCoded(b, LastCoded(a, w))
    decreases |a|
  {
    hide Head, ShowRun, IsWord;
    HeadBoth(a, b);
    HeadShape(a);
    var c := Head(a);
    if c.run == [] {
      BlanksFirst(a, b, w);
    } else {
      assert c.rest != [] ==> c.rest[|c.rest| - 1] == a[|a| - 1];
      ShowBoth(c.rest, b, IsWord(c.run));
      var x, y, z := ShowRun(c.gap, c.run, w), Show(c.rest, IsWord(c.run)), Show(b, LastCoded(a, w));
      assert x + (y + z) == x + y + z;
    }
  }

  // Blanks with nothing coded before them are shown.
  lemma BlanksFirst(a: seq<byte>, b: seq<byte>, w: bool)
    requires Head(a).run == [] && Head(a + b) == Cut(a + Head(b).gap, Head(b).run, Head(b).rest) && EndsClean(a, w)
    ensures Show(a + b, w) == Show(a, w) + Show(b, LastCoded(a, w))
    ensures LastCoded(a + b, w) == LastCoded(b, LastCoded(a, w))
  {
    hide Head, IsWord, ShowRun;
    HeadShape(a);
    assert a == Head(a).gap;
    if a == [] {
      assert a + b == b && [] + Show(b, w) == Show(b, w);
    } else {
      assert !w by { assert IsBlank(a[|a| - 1]); }
      var d := Head(b);
      if d.run != [] {
        ShowMore(a, d.gap, d.run);
        Regroup(a, ShowRun(d.gap, d.run, false), Show(d.rest, IsWord(d.run)));
      }
    }
  }

  lemma ShowMore(a: seq<byte>, gap: seq<byte>, run: seq<byte>)
    ensures ShowRun(a + gap, run, false) == a + ShowRun(gap, run, false)
  {
    hide Classify, Decoded;
    var d := Decoded(Classify(run));
    Regroup(a, gap, if d.None? then run else d.value);
  }

  lemma {:induction false} NoFoldsBoth(a: seq<byte>, b: seq<byte>)
    ensures NoFolds(a + b) == NoFolds(a) + NoFolds(b)
  {
    if a == [] {
      assert a + b == b;
    } else {
      assert (a + b)[1..] == a[1..] + b;
      NoFoldsBoth(a[1..], b);
      Regroup(if a[0] == NL then [] else [a[0]], NoFolds(a[1..]), NoFolds(b));
    }
  }

  lemma {:induction false} NoFoldsAtAll(s: seq<byte>)
    requires NL !in s
    ensures NoFolds(s) == s
  {
    if s != [] {
      assert s[0] in s && forall x :: x in s[1..] ==> x in s;
      NoFoldsAtAll(s[1..]);
    }
  }

  // ---- the words the encoder writes ----

  function Letter(e: Encoding): byte { if e.B? then 'B' as int else 'Q' as int }

  // An encoded-word without the blank before it.
  function WordRun(e: Encoding, charset: seq<byte>, t: seq<byte>): seq<byte> {
    [EQ, QM] + charset + [QM, Letter(e), QM] + t + WORD_END
  }

  lemma {:induction false} MarkIs(s: seq<byte>, i: nat, j: nat)
    requires i <= j < |s| && QM !in s[i..j] && s[j] == QM
    ensures Mark(s, i) == j
    decreases j - i
  {
    if i < j {
      assert s[i] in s[i..j];
      assert forall x :: x in s[i + 1..j] ==> x in s[i..j];
      MarkIs(s, i + 1, j);
    }
  }

  // A reader takes it for the encoded-word it is exactly when its text has no question mark
  // and is not empty.
  lemma WordRead(e: Encoding, charset: seq<byte>, t: seq<byte>)
    requires IsName(charset) && Printable(t)
    ensures Classify(WordRun(e, charset, t))
         == if QM in t || t == [] then Raw(WordRun(e, charset, t)) else Coded(charset, [Letter(e)], t)
  {
    hide Printable, WordRun, IsName;
    var r, c := WordRun(e, charset, t), |charset|;
    WordSlices(e, charset, t);
    assert QM !in charset by { NameHasNoMark(charset); }
    MarkIs(r, 2, 2 + c);
    MarkIs(r, 3 + c, 4 + c);
    LetterIsName(e);
  }

  lemma WordSlices(e: Encoding, charset: seq<byte>, t: seq<byte>)
    ensures var r, c := WordRun(e, charset, t), |charset|;
      && |r| == 7 + c + |t| && r[0] == EQ && r[1] == QM
      && r[2..2 + c] == charset && r[2 + c] == QM && r[3 + c..4 + c] == [Letter(e)] && r[4 + c] == QM
      && r[5 + c..|r| - 2] == t && r[|r| - 2..] == WORD_END
  {
  }

  lemma NameHasNoMark(s: seq<byte>)
    requires IsName(s)
    ensures QM !in s && Printable(s)
  {
    assert QM in ESPECIALS by { assert ESPECIALS[13] == QM; }
  }

  lemma LetterIsName(e: Encoding)
    ensures IsName([Letter(e)])
  {
  }

  // ---- pieces of output, read ----

  // Seven-bit bytes alone.
  predicate Ascii(s: seq<byte>) {
    forall i :: 0 <= i < |s| ==> s[i] < 128
  }

  // What the encoder's pieces look like.
  ghost predicate PieceOk(e: Encoding, before: seq<byte>, seg: Seg) {
    match seg
    case Plain(t) => Ascii(t) && NL !in t && (before != [] ==> Spaced(t))
    case Fold => true
    case Word(t) => Closable(e, t)
  }

  ghost predicate PiecesOk(e: Encoding, charset: seq<byte>, segs: seq<Seg>) {
    forall i :: 0 <= i < |segs| ==> PieceOk(e, Render(e, charset, segs[..i]), segs[i])
  }

  // Such pieces are put out in seven bits.
  lemma {:induction false} OutputIsAscii(e: Encoding, charset: seq<byte>, segs: seq<Seg>)
    requires IsName(charset) && PiecesOk(e, charset, segs)
    ensures Ascii(Render(e, charset, segs))
  {
    hide PiecesOk, PieceOk, RenderSeg;
    if segs != [] {
      var most, seg := segs[..|segs| - 1], segs[|segs| - 1];
      RenderStep(e, charset, segs);
      OutputIsAscii(e, charset, most);
      PieceIsAscii(e, charset, Render(e, charset, most), seg);
    }
  }

  lemma PieceIsAscii(e: Encoding, charset: seq<byte>, before: seq<byte>, seg: Seg)
    requires IsName(charset) && PieceOk(e, before, seg)
    ensures Ascii(RenderSeg(e, charset, seg))
  {
    hide Closable;
    match seg
    case Word(t) => TextPrintable(e, t);
    case _ =>
  }

  // A plain text that holds what looks like an encoded-word.
  predicate HasWord(t: seq<byte>) {
    exists i :: 0 <= i < |Runs(t)| && Classify(Runs(t)[i]).Coded?
  }

  lemma {:induction false} RunsAreShort(t: seq<byte>, i: nat)
    requires i < |Runs(t)|
    ensures |Runs(t)[i]| <= |t|
    decreases |t|
  {
    hide Head;
    if i > 0 {
      RunsAreShort(Head(t).rest, i - 1);
    }
  }

  lemma ShortHasNoWord(t: seq<byte>)
    requires |t| < 4
    ensures !HasWord(t)
  {
    hide Runs;
    forall i | 0 <= i < |Runs(t)| ensures !Classify(Runs(t)[i]).Coded? {
      RunsAreShort(t, i);
    }
  }

  // A piece with what a reader takes for something else: a plain one with what looks like an
  // encoded-word, an encoded-word with a question mark in its text.
  predicate Marked(seg: Seg) {
    match seg
    case Plain(t) => HasWord(t)
    case Fold => false
    case Word(t) => QM in t
  }

  // An empty encoded-word is none to a reader either.
  predicate Misread(seg: Seg) {
    Marked(seg) || seg == Word([])
  }

  predicate AnyMarked(segs: seq<Seg>) {
    exists i :: 0 <= i < |segs| && Marked(segs[i])
  }

  predicate AnyMisread(segs: seq<Seg>) {
    exists i :: 0 <= i < |segs| && Misread(segs[i])
  }

  lemma MarkedSnoc(segs: seq<Seg>, seg: Seg)
    ensures AnyMarked(segs + [seg]) <==> AnyMarked(segs) || Marked(seg)
    ensures Word([]) in segs + [seg] <==> Word([]) in segs || seg == Word([])
  {
    hide Marked;
    var all := segs + [seg];
    assert all[|segs|] == seg;
    if i :| 0 <= i < |segs| && Marked(segs[i]) {
      assert Marked(all[i]);
    }
  }

  lemma MisreadIs(segs: seq<Seg>)
    ensures AnyMisread(segs) <==> AnyMarked(segs) || Word([]) in segs
  {
    hide Marked;
    if Word([]) in segs {
      var i :| 0 <= i < |segs| && segs[i] == Word([]);
      assert Misread(segs[i]);
    }
    if i :| 0 <= i < |segs| && Marked(segs[i]) {
      assert Misread(segs[i]);
    }
  }

  // The runs of a plain text, none of them meant as an encoded-word.
  function AllRaw(rs: seq<seq<byte>>): (c: seq<Run>)
    ensures |c| == |rs| && forall i :: 0 <= i < |rs| ==> c[i] == Raw(rs[i])
  {
    seq(|rs|, i requires 0 <= i < |rs| => Raw(rs[i]))
  }

  function Meant(e: Encoding, charset: seq<byte>, seg: Seg): seq<Run> {
    match seg
    case Plain(t) => AllRaw(Runs(t))
    case Fold => []
    case Word(t) => [Coded(charset, [Letter(e)], t)]
  }

  // What the encoder means its output to be read as.
  function Intended(e: Encoding, charset: seq<byte>, segs: seq<Seg>): seq<Run> {
    if segs == [] then [] else
      Intended(e, charset, segs[..|segs| - 1]) + Meant(e, charset, segs[|segs| - 1])
  }

  lemma RenderStep(e: Encoding, charset: seq<byte>, segs: seq<Seg>)
    requires segs != [] && PiecesOk(e, charset, segs)
    ensures var most, seg := segs[..|segs| - 1], segs[|segs| - 1];
      && PiecesOk(e, charset, most) && PieceOk(e, Render(e, charset, most), seg)
      && Render(e, charset, segs) == Render(e, charset, most) + RenderSeg(e, charset, seg)
      && (AnyMisread(segs) <==> AnyMisread(most) || Misread(seg))
  {
    hide Render, PieceOk, Misread;
    var n := |segs| - 1;
    var most, seg := segs[..n], segs[n];
    assert most + [seg] == segs;
    RenderSnoc(e, charset, most, seg);
    forall i | 0 <= i < n ensures PieceOk(e, Render(e, charset, most[..i]), most[i]) {
      assert most[..i] == segs[..i] && most[i] == segs[i];
    }
    if i :| 0 <= i < n && Misread(segs[i]) {
      assert Misread(most[i]);
    }
    if i :| 0 <= i < n && Misread(most[i]) {
      assert Misread(segs[i]);
    }
  }

  // One more piece of output, unfolded: it starts with a blank unless it is the first.
  lemma PieceStarts(e: Encoding, charset: seq<byte>, before: seq<byte>, seg: Seg)
    requires IsName(charset) && PieceOk(e, before, seg)
    ensures before != [] ==> StartsBlank(NoFolds(RenderSeg(e, charset, seg)))
    ensures seg.Word? ==> Printable(seg.text)
    ensures seg.Word? ==> NoFolds(RenderSeg(e, charset, seg)) == [SP] + WordRun(e, charset, seg.text)
    ensures seg.Word? ==> Head(NoFolds(RenderSeg(e, charset, seg))) == Cut([SP], WordRun(e, charset, seg.text), [])
    ensures seg.Plain? ==> NoFolds(RenderSeg(e, charset, seg)) == seg.text
    ensures seg.Fold? ==> NoFolds(RenderSeg(e, charset, seg)) == []
  {
    hide Head, Full, WellPadded, QText, WordRun, WordPrefix;
    match seg
    case Plain(t) => NoFoldsAtAll(t);
    case Fold => assert [NL][1..] == [];
    case Word(t) => WordStarts(e, charset, t);
  }

  lemma WordStarts(e: Encoding, charset: seq<byte>, t: seq<byte>)
    requires IsName(charset) && Closable(e, t)
    ensures var r, w := RenderSeg(e, charset, Word(t)), WordRun(e, charset, t);
      NoFolds(r) == [SP] + w && Head([SP] + w) == Cut([SP], w, []) && Printable(t)
  {
    hide Head, Closable, NoFolds, IsName;
    TextPrintable(e, t);
    NameHasNoMark(charset);
    var r, w := RenderSeg(e, charset, Word(t)), WordRun(e, charset, t);
    assert r == [SP] + w;
    WordPrintable(e, charset, t);
    NoFoldsAtAll(r);
    HeadOfWord(w);
  }

  lemma HeadOfWord(w: seq<byte>)
    requires AllBlank(w, false) && w != []
    ensures Head([SP] + w) == Cut([SP], w, [])
  {
    hide Head;
    assert [SP] + w == [SP] + w + [];
    HeadIs([SP] + w, Cut([SP], w, []));
  }

  lemma WordPrintable(e: Encoding, charset: seq<byte>, t: seq<byte>)
    requires Printable(charset) && Printable(t)
    ensures Printable(WordRun(e, charset, t)) && AllBlank(WordRun(e, charset, t), false)
    ensures NL !in [SP] + WordRun(e, charset, t)
  {
  }

  lemma TextPrintable(e: Encoding, t: seq<byte>)
    requires Closable(e, t)
    ensures Printable(t) && (e.B? ==> QM !in t)
    ensures QM in t <==> e.Q? && QM in WordPayload(e, t)
  {
    if e.B? {
      LettersOnly(t);
    } else {
      QTextMarks(t);
    }
  }

  lemma {:induction false} LettersOnly(t: seq<byte>)
    requires WellPadded(t)
    ensures Printable(t) && QM !in t
  {
    hide Unquantum, FromLetter;
    if t != [] {
      var q := t[..4];
      QuantumLetters(q);
      assert t == q + t[4..];
      if |t| > 4 {
        LettersOnly(t[4..]);
      } else {
        assert t[4..] == [];
      }
    }
  }

  lemma QuantumLetters(q: seq<byte>)
    requires |q| == 4 && Unquantum(q).Some?
    ensures Printable(q) && QM !in q
  {
  }

  // The reader's runs are the encoder's, and the reader takes for encoded-words just those the
  // encoder means, exactly when no piece is misread: no text of an encoded-word that is empty or
  // has a question mark in it, and no plain text with what looks like an encoded-word.
  lemma {:induction false} ReaderFindsWords(e: Encoding, charset: seq<byte>, segs: seq<Seg>)
    requires IsName(charset) && PiecesOk(e, charset, segs)
    ensures Parse(NoFolds(Render(e, charset, segs))) == Intended(e, charset, segs) <==> !AnyMisread(segs)
    ensures |Parse(NoFolds(Render(e, charset, segs)))| == |Intended(e, charset, segs)|
  {
    hide PiecesOk, PieceOk, AnyMisread, Misread, Parse, RenderSeg, Meant, Render, NoFolds;
    if segs == [] {
      assert Parse(NoFolds(Render(e, charset, segs))) == [] by { NothingRead(e, charset); }
      assert !AnyMisread([]) by { NothingMisread(); }
    } else {
      var most, seg := segs[..|segs| - 1], segs[|segs| - 1];
      var a, b := Render(e, charset, most), RenderSeg(e, charset, seg);
      RenderStep(e, charset, segs);
      ReaderFindsWords(e, charset, most);
      NoFoldsBoth(a, b);
      PieceStarts(e, charset, a, seg);
      PieceRead(e, charset, a, seg);
      assert a == [] ==> NoFolds(a) == [] by { NoRuns(); }
      ParseBoth(NoFolds(a), NoFolds(b));
      SameHalves(Parse(NoFolds(a)), Parse(NoFolds(b)), Intended(e, charset, most), Meant(e, charset, seg));
    }
  }

  lemma NothingRead(e: Encoding, charset: seq<byte>)
    ensures Parse(NoFolds(Render(e, charset, []))) == []
  {
    NoRuns();
  }

  lemma ParseBoth(a: seq<byte>, b: seq<byte>)
    requires a == [] || StartsBlank(b)
    ensures Parse(a + b) == Parse(a) + Parse(b)
  {
    hide Runs, Classify;
    if a == [] {
      NoRuns();
      assert a + b == b && [] + Parse(b) == Parse(b) && Parse(a) == [];
    } else {
      RunsBoth(a, b);
      var x, y := Runs(a), Runs(b);
      assert ClassifyAll(x + y) == ClassifyAll(x) + ClassifyAll(y);
    }
  }

  lemma NoRuns()
    ensures NoFolds([]) == [] && Runs([]) == [] && Head([]).run == []
  {
  }

  lemma NothingMisread()
    ensures !AnyMisread([])
  {
  }

  lemma SameHalves(a: seq<Run>, b: seq<Run>, c: seq<Run>, d: seq<Run>)
    requires |a| == |c|
    ensures a + b == c + d <==> a == c && b == d
  {
    if a + b == c + d {
      assert a == (a + b)[..|a|] && c == (c + d)[..|a|] && b == (a + b)[|a|..] && d == (c + d)[|a|..];
    }
  }

  // One piece on its own.
  lemma PieceRead(e: Encoding, charset: seq<byte>, before: seq<byte>, seg: Seg)
    requires IsName(charset) && PieceOk(e, before, seg)
    ensures var c, m := Parse(NoFolds(RenderSeg(e, charset, seg))), Meant(e, charset, seg);
      |c| == |m| && (c == m <==> !Misread(seg))
  {
    hide PieceOk, Head, RenderSeg;
    PieceStarts(e, charset, before, seg);
    match seg
    case Plain(t) => RawRuns(Runs(t));
    case Fold => NoRuns();
    case Word(t) =>
      WordRead(e, charset, t);
      OneRun(NoFolds(RenderSeg(e, charset, seg)), WordRun(e, charset, t));
  }

  lemma OneRun(s: seq<byte>, r: seq<byte>)
    requires Head(s) == Cut([SP], r, []) && r != []
    ensures Parse(s) == [Classify(r)]
    ensures forall w :: Show(s, w) == ShowRun([SP], r, w) && LastCoded(s, w) == IsWord(r)
  {
    hide Head, Classify, ShowRun;
    NoRuns();
    assert Runs(s) == [r] + [] == [r];
    forall w ensures Show(s, w) == ShowRun([SP], r, w) && LastCoded(s, w) == IsWord(r) {
      assert ShowRun([SP], r, w) + [] == ShowRun([SP], r, w);
      ShowNothing(IsWord(r));
    }
  }

  lemma ShowNothing(w: bool)
    ensures Show([], w) == [] && LastCoded([], w) == w
  {
    NoRuns();
  }

  lemma RawRuns(rs: seq<seq<byte>>)
    ensures ClassifyAll(rs) == AllRaw(rs) <==> forall i :: 0 <= i < |rs| ==> !Classify(rs[i]).Coded?
  {
    hide Classify;
    forall i | 0 <= i < |rs| ensures !Classify(rs[i]).Coded? <==> Classify(rs[i]) == Raw(rs[i]) {
      RawKeeps(rs[i]);
    }
    if ClassifyAll(rs) == AllRaw(rs) {
      forall i | 0 <= i < |rs| ensures !Classify(rs[i]).Coded? {
        assert ClassifyAll(rs)[i] == AllRaw(rs)[i];
      }
    }
  }

  lemma RawKeeps(r: seq<byte>)
    ensures !Classify(r).Coded? <==> Classify(r) == Raw(r)
  {
  }

  // ---- what is shown ----

  lemma {:induction false} PlainShown(t: seq<byte>, w: bool)
    requires !HasWord(t)
    ensures Show(t, w) == t && (t != [] && !IsBlank(t[|t| - 1]) ==> !LastCoded(t, w)) && (!w ==> !LastCoded(t, w))
    decreases |t|
  {
    hide Head, Classify, Decoded;
    HeadShape(t);
    var c := Head(t);
    if c.run == [] {
      assert t == c.gap + [] + [] == c.gap;
    } else {
      assert Runs(t)[0] == c.run;
      forall i | 0 <= i < |Runs(c.rest)| ensures !Classify(Runs(c.rest)[i]).Coded? {
        assert Runs(t)[i + 1] == Runs(c.rest)[i];
      }
      RawUndecoded(c.run);
      PlainShown(c.rest, false);
    }
  }

  lemma RawUndecoded(r: seq<byte>)
    requires !Classify(r).Coded?
    ensures Decoded(Classify(r)) == None
  {
  }

  lemma {:induction false} QDecodes(t: seq<byte>)
    requires QText(t)
    ensures QDecode(t) == QPayload(t)
  {
    if t != [] {
      if EscapeAt(t) {
        QDecodes(t[3..]);
      } else {
        QDecodes(t[1..]);
      }
    }
  }

  // An encoded-word the reader takes for one is shown as what it stands for.
  lemma WordShown(e: Encoding, charset: seq<byte>, t: seq<byte>)
    requires IsName(charset) && Closable(e, t) && QM !in t && t != []
    ensures Decoded(Classify(WordRun(e, charset, t))) == Some(WordPayload(e, t))
  {
    hide Classify, WordRun, Printable, QText, Decode;
    TextPrintable(e, t);
    WordRead(e, charset, t);
    if e.B? {
      WellPaddedDecodes(t);
      PayloadIs(t);
    } else {
      QDecodes(t);
    }
  }

  lemma PayloadIs(t: seq<byte>)
    requires Decode(t).Some?
    ensures Decode(t) == Some(Payload(t))
  {
  }

  // A reader shows of the bytes what the pieces are meant to show, when none is misread.
  lemma {:induction false} ReaderShows(e: Encoding, charset: seq<byte>, segs: seq<Seg>)
    requires IsName(charset) && PiecesOk(e, charset, segs) && !AnyMisread(segs)
    ensures Read(Render(e, charset, segs)) == Shown(e, segs)
    ensures LastCoded(NoFolds(Render(e, charset, segs)), false) == EndsInWord(segs)
    ensures EndsClean(NoFolds(Render(e, charset, segs)), false)
  {
    hide PiecesOk, PieceOk, AnyMisread, Misread, Show, LastCoded, RenderSeg, Render, NoFolds, MeantShown, Shown,
      EndsInWord, EndsClean, StartsBlank;
    if segs == [] {
      assert NoFolds(Render(e, charset, [])) == [] by { RenderNothing(e, charset); }
      ShowNothing(false);
      CleanNothing(e);
    } else {
      var most, seg := segs[..|segs| - 1], segs[|segs| - 1];
      var a, b := Render(e, charset, most), RenderSeg(e, charset, seg);
      RenderStep(e, charset, segs);
      ReaderShows(e, charset, most);
      NoFoldsBoth(a, b);
      PieceStarts(e, charset, a, seg);
      var x, y, w := NoFolds(a), NoFolds(b), EndsInWord(most);
      assert a == [] ==> x == [] by { NoRuns(); }
      if a == [] {
        ShowNothing(false);
        assert x + y == y && [] + Show(y, w) == Show(y, w);
      } else {
        assert StartsBlank(y);
        ShowBoth(x, y, false);
      }
      PieceShown(e, charset, a, seg, w);
      ShownPlus(e, segs);
      StillClean(x, y, w);
    }
  }

  lemma CleanNothing(e: Encoding)
    ensures EndsClean([], false) && Shown(e, []) == [] && !EndsInWord([])
  {
  }

  lemma RenderNothing(e: Encoding, charset: seq<byte>)
    ensures NoFolds(Render(e, charset, [])) == []
  {
  }

  // What one piece adds to what is shown.
  function MeantShown(e: Encoding, seg: Seg, w: bool): seq<byte> {
    match seg
    case Plain(t) => t
    case Fold => []
    case Word(t) => (if w then [] else [SP]) + WordPayload(e, t)
  }

  lemma ShownPlus(e: Encoding, segs: seq<Seg>)
    requires segs != []
    ensures var most, seg := segs[..|segs| - 1], segs[|segs| - 1];
      && Shown(e, segs) == Shown(e, most) + MeantShown(e, seg, EndsInWord(most))
      && EndsInWord(segs) == (seg.Word? || (seg.Fold? && EndsInWord(most)))
  {
    hide WordPayload;
    var most, seg := segs[..|segs| - 1], segs[|segs| - 1];
    var s, w := Shown(e, most), EndsInWord(most);
    match seg
    case Plain(_) =>
    case Fold => assert s + [] == s;
    case Word(t) => Regroup(s, if w then [] else [SP], WordPayload(e, t));
  }

  lemma StillClean(x: seq<byte>, y: seq<byte>, w: bool)
    requires EndsClean(x, false) && LastCoded(x, false) == w && LastCoded(x + y, false) == LastCoded(y, w)
    requires y == [] || !IsBlank(y[|y| - 1]) || !LastCoded(y, w)
    ensures EndsClean(x + y, false)
  {
    hide LastCoded;
    if y == [] {
      assert x + y == x;
    } else {
      assert (x + y)[|x + y| - 1] == y[|y| - 1];
    }
  }

  // One piece, after an encoded-word or not.
  lemma PieceShown(e: Encoding, charset: seq<byte>, before: seq<byte>, seg: Seg, w: bool)
    requires IsName(charset) && PieceOk(e, before, seg) && !Misread(seg) && (w ==> before != [])
    ensures var y := NoFolds(RenderSeg(e, charset, seg));
      && Show(y, w) == MeantShown(e, seg, w)
      && LastCoded(y, w) == (seg.Word? || (seg.Fold? && w))
      && (y == [] || !IsBlank(y[|y| - 1]) || !LastCoded(y, w))
  {
    hide Head, RenderSeg, Show, LastCoded, WordPayload, Classify, Closable, HasWord, WordRun, Decoded, NoFolds;
    PieceStarts(e, charset, before, seg);
    var y := NoFolds(RenderSeg(e, charset, seg));
    match seg
    case Plain(t) => PlainShown(t, w);
    case Fold => ShowNothing(w);
    case Word(t) =>
      var r := WordRun(e, charset, t);
      WordEnds(e, charset, t);
      OneRun(y, r);
      WordShown(e, charset, t);
      assert Show(y, w) == ShowRun([SP], r, w) && LastCoded(y, w) == IsWord(r);
  }

  lemma WordEnds(e: Encoding, charset: seq<byte>, t: seq<byte>)
    ensures var r := WordRun(e, charset, t); r != [] && !IsBlank(([SP] + r)[|r|])
  {
    var r := WordRun(e, charset, t);
    assert r[|r| - 1] == EQ;
  }
}
