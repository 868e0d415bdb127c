// Encoded headers as data: what a line of output means, and what it must look like.
module MimeText {
  import opened Common
  import opened Base64

  const SP: byte := 32
  const TAB: byte := 9
  const NL: byte := 10
  const CR: byte := 13
  const EQ: byte := '=' as int
  const QM: byte := '?' as int

  // ---- characters ----

  predicate SevenBit(s: seq<byte>) {
    forall i :: 0 <= i < |s| ==> s[i] < 0x80
  }

  predicate IsBlank(b: byte) { b == SP || b == TAB }

  // isspace in the C locale.
  predicate IsSpace(b: byte) { b == SP || 9 <= b <= 13 }

  // A byte inside a multibyte sequence of UTF-8.
  predicate IsContinuation(b: byte) { 0x80 <= b < 0xc0 }

  function Trim(s: seq<byte>): (r: seq<byte>)
    ensures |r| <= |s| && r == s[|s| - |r|..]
  {
    if s != [] && IsSpace(s[0]) then Trim(s[1..]) else s
  }

  // How many continuation bytes a text starts with.
  function Tail(s: seq<byte>): (n: nat)
    ensures n <= |s| && forall i :: 0 <= i < n ==> IsContinuation(s[i])
    ensures n < |s| ==> !IsContinuation(s[n])
  {
    if s == [] || !IsContinuation(s[0]) then 0 else 1 + Tail(s[1..])
  }

  // No more than three continuation bytes in a row anywhere.
  predicate ShortRuns(s: seq<byte>) {
    forall i :: 0 <= i <= |s| ==> Tail(s[i..]) <= 3
  }

  // ---- the Q encoding ----

  // mime_qp_is_plain.
  predicate QPlain(b: byte) {
    ('%' as int <= b < '@' as int && b != EQ) || 'A' as int <= b <= 'Z' as int || 'a' as int <= b <= 'z' as int
  }

  // Letters, digits and some marks.
  lemma QPlainIs(b: byte)
    ensures QPlain(b) <==>
            || (exists k :: 0 <= k < 26 && (b as char == "ABCDEFGHIJKLMNOPQRSTUVWXYZ"[k]
                                            || b as char == "abcdefghijklmnopqrstuvwxyz"[k]))
            || b as char in "%&'()*+,-./0123456789:;<>?"
  {
    if 'A' as int <= b <= 'Z' as int {
      Alphabet(b - 'A' as int);
    } else if 'a' as int <= b <= 'z' as int {
      Alphabet(b - 'a' as int);
    }
    if k :| 0 <= k < 26 && (b as char == "ABCDEFGHIJKLMNOPQRSTUVWXYZ"[k] || b as char == "abcdefghijklmnopqrstuvwxyz"[k]) {
      Alphabet(k);
    }
    QMarks(b as char);
  }

  lemma QMarks(c: char)
    ensures c in "%&'()*+,-./0123456789:;<>?" <==> 37 <= c as int <= 63 && c as int != 61
  {
    var t := "%&'()*+,-./0123456789:;<>?";
    assert |t| == 26;
    assert forall k :: 0 <= k < 24 ==> t[k] as int == 37 + k;
    assert t[24] as int == 62 && t[25] as int == 63;
    if 37 <= c as int <= 60 {
      assert t[c as int - 37] == c;
    }
    if c in t {
      var k :| 0 <= k < |t| && t[k] == c;
    }
  }

  function HexValue(b: byte): (v: int)
    ensures -1 <= v < 16
  {
    if '0' as int <= b <= '9' as int then b - '0' as int
    else if 'A' as int <= b <= 'F' as int then b - 'A' as int + 10
    else -1
  }

  // One octet: itself, or "=%02X".
  function QOctet(b: byte): (r: seq<byte>)
    ensures 1 <= |r| <= 3
    ensures forall i :: 0 <= i < |r| ==> r[i] > 32
  {
    if QPlain(b) then [b] else [EQ, HexDigit(b / 16) as int, HexDigit(b % 16) as int]
  }

  // Text of such octets; a plain one is never escaped.
  predicate QText(t: seq<byte>) {
    t == []
    || (EscapeAt(t) && !QPlain(Escaped(t)) && QText(t[3..]))
    || (QPlain(t[0]) && QText(t[1..]))
  }

  predicate EscapeAt(t: seq<byte>) {
    |t| >= 3 && t[0] == EQ && HexValue(t[1]) >= 0 && HexValue(t[2]) >= 0
  }

  function Escaped(t: seq<byte>): byte
    requires EscapeAt(t)
  {
    HexValue(t[1]) * 16 + HexValue(t[2])
  }

  function QPayload(t: seq<byte>): seq<byte> {
    if t == [] then []
    else if EscapeAt(t) then [Escaped(t)] + QPayload(t[3..])
    else [t[0]] + QPayload(t[1..])
  }

  lemma HexRoundTrip(b: byte)
    ensures HexValue(HexDigit(b / 16) as int) * 16 + HexValue(HexDigit(b % 16) as int) == b
    ensures HexValue(HexDigit(b / 16) as int) >= 0 && HexValue(HexDigit(b % 16) as int) >= 0
  {
  }

  lemma OctetAlone(b: byte)
    ensures QText(QOctet(b)) && QPayload(QOctet(b)) == [b]
  {
    hide HexDigit, HexValue;
    var q := QOctet(b);
    HexRoundTrip(b);
    assert QPlain(b) ==> q[1..] == [];
    assert !QPlain(b) ==> q[3..] == [];
  }

  // The first octet of Q text, whatever follows the text.
  lemma FirstOctet(t: seq<byte>, q: seq<byte>)
    requires QText(t) && t != []
    ensures var n := if t[0] == EQ then 3 else 1;
      var v := if t[0] == EQ then Escaped(t) else t[0];
      && n <= |t| && QText(t[n..]) && (t + q)[n..] == t[n..] + q
      && QPayload(t) == [v] + QPayload(t[n..]) && QPayload(t + q) == [v] + QPayload((t + q)[n..])
      && (QText(t + q) <==> QText((t + q)[n..]))
  {
    hide HexValue;
    var u := t + q;
    assert u[0] == t[0] && (|t| >= 3 ==> u[1] == t[1] && u[2] == t[2]);
    assert |t| >= 3 ==> u[3..] == t[3..] + q;
    assert u[1..] == t[1..] + q;
  }

  lemma {:induction false} AppendQOctet(t: seq<byte>, b: byte)
    requires QText(t)
    ensures QText(t + QOctet(b)) && QPayload(t + QOctet(b)) == QPayload(t) + [b]
  {
    hide QOctet, QText, QPayload;
    var q := QOctet(b);
    OctetAlone(b);
    if t == [] {
      assert t + q == q;
      assert QPayload(t) + [b] == [b] by { NoOctets(); }
    } else {
      FirstOctet(t, q);
      AppendQOctet(t[if t[0] == EQ then 3 else 1..], b);
    }
  }

  lemma NoOctets()
    ensures QPayload([]) == []
  {
  }

  // Q text is printable; a question mark stands for itself, and nothing else does.
  lemma {:induction false} QTextMarks(t: seq<byte>)
    requires QText(t)
    ensures forall i :: 0 <= i < |t| ==> 33 <= t[i] <= 126
    ensures QM in t <==> QM in QPayload(t)
  {
    if t != [] {
      if QPlain(t[0]) {
        QTextMarks(t[1..]);
        assert t == [t[0]] + t[1..];
      } else {
        QTextMarks(t[3..]);
        assert t == t[..3] + t[3..];
        assert forall i :: 0 <= i < 3 ==> 33 <= t[i] <= 126 && t[i] != QM;
      }
    }
  }

  // ---- either encoding ----

  datatype Encoding = B | Q

  // Text of an encoded-word that more can be added to.
  predicate Growable(e: Encoding, t: seq<byte>) {
    if e.B? then Full(t) else QText(t)
  }

  // Text an encoded-word may end with.
  predicate Closable(e: Encoding, t: seq<byte>) {
    if e.B? then WellPadded(t) else QText(t)
  }

  function WordPayload(e: Encoding, t: seq<byte>): seq<byte> {
    if e.B? then Payload(t) else QPayload(t)
  }

  lemma EmptyWord(e: Encoding)
    ensures Growable(e, []) && Closable(e, []) && WordPayload(e, []) == []
  {
  }

  // ---- pieces of output ----

  datatype Seg = Plain(text: seq<byte>) | Fold | Word(text: seq<byte>)

  const WORD_END: seq<byte> := [QM, EQ]

  // " =?charset?B?"
  function WordPrefix(e: Encoding, charset: seq<byte>): (r: seq<byte>)
    ensures |r| == 6 + |charset| && r[0] == SP
  {
    [SP, EQ, QM] + charset + [QM, if e.B? then 'B' as int else 'Q' as int, QM]
  }

  function RenderSeg(e: Encoding, charset: seq<byte>, seg: Seg): seq<byte> {
    match seg
    case Plain(t) => t
    case Fold => [NL]
    case Word(t) => WordPrefix(e, charset) + t + WORD_END
  }

  function Render(e: Encoding, charset: seq<byte>, segs: seq<Seg>): seq<byte> {
    if segs == [] then []
    else Render(e, charset, segs[..|segs| - 1]) + RenderSeg(e, charset, segs[|segs| - 1])
  }

  lemma RenderSnoc(e: Encoding, charset: seq<byte>, segs: seq<Seg>, seg: Seg)
    ensures Render(e, charset, segs + [seg]) == Render(e, charset, segs) + RenderSeg(e, charset, seg)
  {
    assert (segs + [seg])[..|segs|] == segs;
  }

  // Folding aside, is the last piece an encoded-word?
  predicate EndsInWord(segs: seq<Seg>) {
    segs != [] && match segs[|segs| - 1]
    case Plain(_) => false
    case Fold => EndsInWord(segs[..|segs| - 1])
    case Word(_) => true
  }

  // What a reader shows of one more piece: folds vanish, white space between
  // encoded-words vanishes, the blank before the first of a row of them stays (section
  // 6.2 of RFC 2047).
  function ShowSeg(shown: seq<byte>, afterWord: bool, e: Encoding, seg: Seg): seq<byte> {
    match seg
    case Plain(t) => shown + t
    case Fold => shown
    case Word(t) => shown + (if afterWord then [] else [SP]) + WordPayload(e, t)
  }

  function Shown(e: Encoding, segs: seq<Seg>): seq<byte> {
    if segs == [] then [] else
      var most := segs[..|segs| - 1];
      ShowSeg(Shown(e, most), EndsInWord(most), e, segs[|segs| - 1])
  }

  lemma ShownSnoc(e: Encoding, segs: seq<Seg>, seg: Seg)
    ensures Shown(e, segs + [seg]) == ShowSeg(Shown(e, segs), EndsInWord(segs), e, seg)
    ensures EndsInWord(segs + [seg]) <==> seg.Word? || (seg.Fold? && EndsInWord(segs))
  {
    assert (segs + [seg])[..|segs|] == segs;
  }

  // ---- layout ----

  // Length of the last line.
  function Column(out: seq<byte>): nat {
    if out == [] || out[|out| - 1] == NL then 0 else 1 + Column(out[..|out| - 1])
  }

  // No line is longer than the limit.
  predicate LinesFit(out: seq<byte>, limit: nat) {
    Column(out) <= limit && (out == [] || LinesFit(out[..|out| - 1], limit))
  }

  // Every line after the first begins with a blank.
  predicate FoldsBlank(out: seq<byte>) {
    forall i :: 0 <= i < |out| - 1 && out[i] == NL ==> IsBlank(out[i + 1])
  }

  predicate EndsLine(out: seq<byte>) {
    out != [] && out[|out| - 1] == NL
  }

  lemma {:induction false} AppendText(out: seq<byte>, text: seq<byte>, limit: nat)
    requires LinesFit(out, limit) && Column(out) + |text| <= limit && NL !in text
    ensures Column(out + text) == Column(out) + |text| && LinesFit(out + text, limit)
  {
    if text == [] {
      assert out + text == out;
    } else {
      var init := text[..|text| - 1];
      AppendText(out, init, limit);
      assert (out + text)[..|out + text| - 1] == out + init;
    }
  }

  lemma AppendFold(out: seq<byte>, limit: nat)
    requires LinesFit(out, limit)
    ensures Column(out + [NL]) == 0 && LinesFit(out + [NL], limit)
  {
    assert (out + [NL])[..|out|] == out;
  }

  lemma {:induction false} FitMeansEveryLine(out: seq<byte>, limit: nat, i: nat, j: nat)
    requires LinesFit(out, limit) && i <= j <= |out| && NL !in out[i..j]
    ensures j - i <= limit
  {
    if j < |out| {
      assert out[..|out| - 1][i..j] == out[i..j];
      FitMeansEveryLine(out[..|out| - 1], limit, i, j);
    } else {
      ColumnCounts(out, i);
    }
  }

  lemma {:induction false} ColumnCounts(out: seq<byte>, i: nat)
    requires i <= |out| && NL !in out[i..]
    ensures Column(out) >= |out| - i
  {
    if i < |out| {
      assert out[|out| - 1] == out[i..][|out| - 1 - i];
      assert forall k :: 0 <= k < |out| - 1 - i ==> out[..|out| - 1][i..][k] == out[i..][k];
      ColumnCounts(out[..|out| - 1], i);
    }
  }

  // ---- what the header must come out as ----

  predicate StaysPlain(t: seq<byte>, limit: nat) {
    SevenBit(t) && |t| <= limit
  }

  predicate LastEncoded(ts: seq<seq<byte>>, limit: nat) {
    ts != [] && !StaysPlain(ts[|ts| - 1], limit)
  }

  // One more token: plain tokens as they are; an encoded token after an encoded one with
  // its blanks; the first of a row with one blank instead. A plain token too long for a
  // line is encoded too, but starts a new encoded-word, so right after another one the
  // blanks before it are not shown.
  function ShowToken(shown: seq<byte>, afterEncoded: bool, t: seq<byte>, limit: nat): seq<byte> {
    if StaysPlain(t, limit) then shown + t
    else if !afterEncoded then shown + [SP] + Trim(t)
    else if SevenBit(t) then shown + Trim(t)
    else shown + t
  }

  function Expected(ts: seq<seq<byte>>, limit: nat): seq<byte> {
    if ts == [] then [] else
      var most := ts[..|ts| - 1];
      ShowToken(Expected(most, limit), LastEncoded(most, limit), ts[|ts| - 1], limit)
  }

  // A token after the first: blanks, then something that is not blank.
  predicate Spaced(t: seq<byte>) {
    t != [] && IsBlank(t[0]) && !IsBlank(t[|t| - 1])
  }

  // One space and then something that is not white space.
  predicate SingleSpaced(t: seq<byte>) {
    |t| >= 2 && t[0] == SP && !IsSpace(t[1])
  }

  // Token i keeps the blanks before it: a plain one always, an encoded one after a plain one
  // when they are a single space, one after an encoded one unless it is a long seven-bit one.
  predicate KeepsBlanks(ts: seq<seq<byte>>, limit: nat, i: nat)
    requires i < |ts|
  {
    || StaysPlain(ts[i], limit)
    || (i > 0 && if StaysPlain(ts[i - 1], limit) then SingleSpaced(ts[i]) else !SevenBit(ts[i]))
  }

  // What one token adds to what is shown.
  lemma TokenAdds(shown: seq<byte>, afterEncoded: bool, t: seq<byte>, limit: nat) returns (part: seq<byte>)
    requires Spaced(t)
    ensures ShowToken(shown, afterEncoded, t, limit) == shown + part && |part| <= |t|
    ensures part == t <==> StaysPlain(t, limit) || if afterEncoded then !SevenBit(t) else SingleSpaced(t)
  {
    hide SevenBit, Trim, Spaced, SingleSpaced;
    LeadingBlank(t);
    if StaysPlain(t, limit) || (afterEncoded && !SevenBit(t)) {
      part := t;
    } else {
      part := if afterEncoded then Trim(t) else [SP] + Trim(t);
      assert shown + [SP] + Trim(t) == shown + ([SP] + Trim(t));
    }
  }

  lemma LeadingBlank(t: seq<byte>)
    requires Spaced(t)
    ensures |Trim(t)| < |t| && ([SP] + Trim(t) == t <==> SingleSpaced(t))
  {
    hide Trim;
    TrimmedStarts(t);
    assert Trim(t) != t;
    if [SP] + Trim(t) == t {
      assert t[1] == ([SP] + Trim(t))[1];
    }
    if SingleSpaced(t) {
      TrimOnce(t);
    }
  }

  lemma {:induction false} TrimmedStarts(t: seq<byte>)
    ensures Trim(t) != [] ==> !IsSpace(Trim(t)[0])
  {
    if t != [] && IsSpace(t[0]) {
      TrimmedStarts(t[1..]);
    }
  }

  // The reader is shown exactly the text that was encoded, if and only if every token keeps
  // the blanks before it.
  lemma {:induction false} ExpectedIsSource(ts: seq<seq<byte>>, limit: nat)
    requires ts != [] ==> ts[0] != [] && ts[0][0] != SP
    requires forall i :: 1 <= i < |ts| ==> Spaced(ts[i])
    ensures Expected(ts, limit) == Flatten(ts) <==> forall i :: 0 <= i < |ts| ==> KeepsBlanks(ts, limit, i)
    ensures ts != [] && StaysPlain(ts[0], limit) ==> |Expected(ts, limit)| <= |Flatten(ts)|
    ensures ts != [] ==> Expected(ts, limit) != [] && Flatten(ts) != [] && Flatten(ts)[0] == ts[0][0]
    ensures ts != [] && !StaysPlain(ts[0], limit) ==> Expected(ts, limit)[0] == SP
  {
    hide SevenBit, StaysPlain, ShowToken, Trim, SingleSpaced, Spaced, Flatten;
    if ts == [] {
      assert Flatten(ts) == [] by { FlattenNothing(); }
    } else if |ts| == 1 {
      FirstToken(ts[0], limit);
      assert ts[..0] == [] && ts == [ts[0]];
      FlattenOne(ts[0]);
      assert KeepsBlanks(ts, limit, 0) <==> StaysPlain(ts[0], limit);
      assert ([SP] + Trim(ts[0]))[0] == SP;
    } else {
      var n := |ts| - 1;
      var most, t := ts[..n], ts[n];
      ExpectedIsSource(most, limit);
      assert ts == most + [t];
      FlattenBoth(most, [t]);
      FlattenOne(t);
      assert forall i :: 0 <= i < n ==> KeepsBlanks(most, limit, i) == KeepsBlanks(ts, limit, i);
      var part := TokenAdds(Expected(most, limit), LastEncoded(most, limit), t, limit);
      assert most[n - 1] == ts[n - 1];
      SameParts(Expected(most, limit), Flatten(most), part, t);
      assert KeepsBlanks(ts, limit, n) <==> part == t;
    }
  }

  lemma FlattenNothing()
    ensures Flatten([]) == []
  {
  }

  lemma FirstToken(t: seq<byte>, limit: nat)
    requires t != [] && t[0] != SP
    ensures ShowToken([], false, t, limit) == (if StaysPlain(t, limit) then t else [SP] + Trim(t))
    ensures [] + t == t
  {
    assert [] + [SP] + Trim(t) == [SP] + Trim(t);
  }

  lemma SameParts(a: seq<byte>, b: seq<byte>, part: seq<byte>, t: seq<byte>)
    requires |part| <= |t| && a != [] && b != [] && (|a| <= |b| || a[0] != b[0])
    ensures a + part == b + t <==> a == b && part == t
  {
    if a + part == b + t {
      assert (a + part)[0] == a[0] && (b + t)[0] == b[0];
      assert a == (a + part)[..|a|] && b == (b + t)[..|b|];
      assert part == (a + part)[|a|..] && t == (b + t)[|b|..];
    }
  }

  // Two spaces before an encoded word are not both shown, and the blank before a long
  // seven-bit token after one is not shown at all.
  lemma LostBlanks(limit: nat)
    requires limit >= 2
    ensures var ts: seq<seq<byte>> := [['X' as int, ':' as int], [SP, SP, 0xC3, 0xA9]];
      Expected(ts, limit) != Flatten(ts)
    ensures var ts: seq<seq<byte>> := [['X' as int, ':' as int], [SP, 0xC3, 0xA9], [SP] + seq(limit, i => 'a' as int)];
      Expected(ts, limit) != Flatten(ts)
  {
    hide Expected, Flatten;
    var x, y: seq<byte>, z: seq<byte> := ['X' as int, ':' as int], [SP, 0xC3, 0xA9], [SP] + seq(limit, i => 'a' as int);
    var y2: seq<byte> := [SP, SP, 0xC3, 0xA9];
    assert y[1] == 0xC3 && y2[2] == 0xC3;
    assert !KeepsBlanks([x, y2], limit, 1);
    assert !KeepsBlanks([x, y, z], limit, 2);
    ExpectedIsSource([x, y2], limit);
    ExpectedIsSource([x, y, z], limit);
  }

  lemma TrimOnce(t: seq<byte>)
    requires |t| >= 2 && t[0] == SP && !IsSpace(t[1])
    ensures Trim(t) == t[1..]
  {
  }
}
