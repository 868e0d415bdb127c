// Encoding a whole text list as base64 lines, fed by a character iterator that crosses
// line ends, and reading the lines back.
module Base64Body {
  import opened Common
  import opened Base64

  const LIMIT := 76                // MIME_STRING_LIMIT
  const NL: byte := 10

  // The bytes from position pos of line cur on.
  function RestOf(lines: seq<seq<byte>>, cur: nat, pos: nat): seq<byte>
    requires cur < |lines| ==> pos <= |lines[cur]|
  {
    if cur < |lines| then lines[cur][pos..] + Flatten(lines[cur + 1..]) else []
  }

  lemma MoveWithin(lines: seq<seq<byte>>, cur: nat, pos: nat, k: nat)
    requires cur < |lines| && pos + k <= |lines[cur]|
    ensures RestOf(lines, cur, pos) == lines[cur][pos..pos + k] + RestOf(lines, cur, pos + k)
  {
    hide Flatten;
    var l, rest := lines[cur], Flatten(lines[cur + 1..]);
    assert l[pos..] == l[pos..pos + k] + l[pos + k..];
    assert (l[pos..pos + k] + l[pos + k..]) + rest == l[pos..pos + k] + (l[pos + k..] + rest);
  }

  lemma MoveOn(lines: seq<seq<byte>>, cur: nat)
    requires cur < |lines|
    ensures RestOf(lines, cur, |lines[cur]|) == RestOf(lines, cur + 1, 0)
  {
    var l := lines[cur];
    assert l[|l|..] == [] && [] + Flatten(lines[cur + 1..]) == Flatten(lines[cur + 1..]);
    if cur + 1 < |lines| {
      var m := lines[cur + 1..];
      assert m[0] == lines[cur + 1] && m[1..] == lines[cur + 2..] && m[0][0..] == m[0];
    }
  }

  // TextlistCharIterator over a list of lines; cur == |lines| stands for NULL.
  class CharIterator {
    const lines: seq<seq<byte>>
    var cur: nat
    var len: nat
    var pos: nat

    ghost predicate Valid()
      reads this
    {
      cur <= |lines| && (cur < |lines| ==> len == |lines[cur]| && pos <= len)
    }

    // The bytes still to come.
    ghost function Rest(): seq<byte>
      reads this
      requires Valid()
    {
      RestOf(lines, cur, pos)
    }

    constructor (lines: seq<seq<byte>>)
      ensures Valid() && Rest() == Flatten(lines)
    {
      this.lines := lines;
      cur, pos := 0, 0;
      len := if lines == [] then 0 else |lines[0]|;
      new;
      assert lines != [] ==> lines[0][0..] == lines[0];
    }

    // tl_char_iterator_next: as many bytes as asked for, or all that are left.
    method Next(n: nat) returns (buf: seq<byte>)
      requires Valid()
      modifies this
      ensures Valid()
      ensures |buf| == (if n < |old(Rest())| then n else |old(Rest())|)
      ensures buf + Rest() == old(Rest())
    {
      hide RestOf;
      NothingLeft(lines, pos);
      buf := [];
      if cur == |lines| {
        return;
      }
      var left, want := len - pos, n;
      while want > 0
        invariant Valid() && cur < |lines| && 0 <= left == len - pos
        invariant buf + RestOf(lines, cur, pos) == old(Rest()) && |buf| + want == n && 0 <= want
        decreases |lines| - cur, want
      {
        var toMove := if left < want then left else want;
        MoveWithin(lines, cur, pos, toMove);
        buf := buf + lines[cur][pos..pos + toMove];
        pos := pos + toMove;
        want := want - toMove;
        left := left - toMove;
        if left == 0 {
          MoveOn(lines, cur);
          cur := cur + 1;
          if cur == |lines| {
            NothingLeft(lines, 0);
            NothingLeft(lines, pos);
            return;
          }
          len := |lines[cur]|;
          left := len;
          pos := 0;
        }
      }
    }
  }

  lemma NothingLeft(lines: seq<seq<byte>>, pos: nat)
    ensures RestOf(lines, |lines|, pos) == []
  {
  }

  // A line without its newline.
  function Text(line: seq<byte>): seq<byte> {
    if line == [] then [] else line[..|line| - 1]
  }

  // A line of the output: base64 text within the limit, then a newline.
  predicate IsLine(line: seq<byte>) {
    line == Text(line) + [NL] && |Text(line)| <= LIMIT && |Text(line)| % 4 == 0 && WellPadded(Text(line))
  }

  // Decoding line by line, newlines stripped, and putting the pieces together.
  function DecodedLines(lines: seq<seq<byte>>): seq<byte> {
    if lines == [] then [] else DecodedLines(lines[..|lines| - 1]) + Payload(Text(lines[|lines| - 1]))
  }

  // Closing a line: what was in the buffer moves to the list.
  lemma CloseLine(lines: seq<seq<byte>>, text: seq<byte>)
    requires |text| <= LIMIT && |text| % 4 == 0 && WellPadded(text)
    ensures DecodedLines(lines + [text + [NL]]) == DecodedLines(lines) + Payload(text)
    ensures IsLine(text + [NL]) && Text(text + [NL]) == text
  {
    hide WellPadded;
    var all := lines + [text + [NL]];
    assert all[..|all| - 1] == lines && (text + [NL])[..|text|] == text;
  }

  // Everything there is: closed lines, the line being built, the chunk in hand, the rest.
  function Whole(done: seq<byte>, line: seq<byte>, chunk: seq<byte>, rest: seq<byte>): seq<byte> {
    done + line + chunk + rest
  }

  lemma MoveChunk(done: seq<byte>, line: seq<byte>, chunk: seq<byte>, rest: seq<byte>, next: seq<byte>, rest': seq<byte>)
    requires next + rest' == rest
    ensures Whole(done, line, chunk, rest) == Whole(done, line + chunk, next, rest')
  {
    assert done + line + chunk == done + (line + chunk);
    assert done + (line + chunk) + next + rest' == done + (line + chunk) + (next + rest');
  }

  lemma MoveLine(done: seq<byte>, line: seq<byte>, chunk: seq<byte>, rest: seq<byte>)
    ensures Whole(done, line, chunk, rest) == Whole(done + line, [], chunk, rest)
  {
  }

  lemma SomethingThere(done: seq<byte>, line: seq<byte>, chunk: seq<byte>, rest: seq<byte>)
    requires chunk != []
    ensures Whole(done, line, chunk, rest) != []
  {
  }

  lemma WholeAtStart(chunk: seq<byte>, rest: seq<byte>)
    ensures Whole([], [], chunk, rest) == chunk + rest
  {
    assert [] + [] + chunk == chunk;
  }

  lemma WholeAtEnd(done: seq<byte>, line: seq<byte>)
    ensures Whole(done, line, [], []) == done + line
  {
    assert done + line + [] + [] == done + line;
  }

  // mime_b64_encode_tl.
  method EncodeTextList(input: seq<seq<byte>>) returns (out: seq<seq<byte>>)
    ensures forall i :: 0 <= i < |out| ==> IsLine(out[i])
    ensures forall i :: 0 <= i < |out| - 1 ==> Full(Text(out[i])) && |Text(out[i])| == 76
    ensures out != [] && (Text(out[|out| - 1]) == [] <==> Flatten(input) == [])
    ensures DecodedLines(out) == Flatten(input)
  {
    hide Full, WellPadded, Quantum, Payload, Flatten, IsLine, Text, DecodedLines, Whole;
    out := [];
    var iter := new CharIterator(input);
    var buf: seq<byte> := [];
    var chunk := iter.Next(3);
    EmptyText();
    assert Whole(DecodedLines(out), Payload(buf), chunk, iter.Rest()) == Flatten(input) by { WholeAtStart(chunk, iter.Rest()); }
    while chunk != []
      invariant iter.Valid() && fresh(iter)
      invariant |buf| <= LIMIT && |buf| % 4 == 0 && WellPadded(buf)
      invariant chunk != [] ==> Full(buf)
      invariant |chunk| <= 3 && (|chunk| < 3 ==> iter.Rest() == [])
      invariant forall i :: 0 <= i < |out| ==> IsLine(out[i]) && Full(Text(out[i])) && |Text(out[i])| == 76
      invariant buf == [] ==> out == [] && Flatten(input) == chunk + iter.Rest()
      invariant buf != [] ==> Flatten(input) != []
      invariant chunk == [] ==> iter.Rest() == []
      invariant Whole(DecodedLines(out), Payload(buf), chunk, iter.Rest()) == Flatten(input)
      decreases |chunk| + |iter.Rest()|
    {
      ghost var rest := iter.Rest();
      if |buf| + 4 > LIMIT {
        CloseLine(out, buf);
        MoveLine(DecodedLines(out), Payload(buf), chunk, rest);
        out := out + [buf + [NL]];
        buf := [];
      }
      assert Flatten(input) != [] by { SomethingThere(DecodedLines(out), Payload(buf), chunk, rest); }
      AppendQuantum(buf, chunk);
      var letters, used := EncodeChunk(chunk);
      assert chunk[..used] == chunk;
      ghost var before, taken := buf, chunk;
      buf := buf + letters;
      chunk := iter.Next(3);
      MoveChunk(DecodedLines(out), Payload(before), taken, rest, chunk, iter.Rest());
    }
    assert chunk + iter.Rest() == [];
    CloseLine(out, buf);
    WholeAtEnd(DecodedLines(out), Payload(buf));
    out := out + [buf + [NL]];
  }

  lemma EmptyText()
    ensures Full([]) && WellPadded([]) && Payload([]) == [] && DecodedLines([]) == []
  {
  }

  // Reading the lines back with mime_b64_decode gives the input bytes again.
  method DecodeLines(lines: seq<seq<byte>>) returns (bytes: seq<byte>)
    requires forall i :: 0 <= i < |lines| ==> IsLine(lines[i])
    ensures bytes == DecodedLines(lines)
  {
    hide Payload;
    bytes := [];
    var i := 0;
    while i < |lines|
      invariant 0 <= i <= |lines| && bytes == DecodedLines(lines[..i])
    {
      var text := lines[i][..|lines[i]| - 1];
      assert IsLine(lines[i]) && text == Text(lines[i]);
      WellPaddedDecodes(text);
      var r := DecodeText(text);
      assert r == Some(Payload(text)) by { PayloadOf(text); }
      bytes := bytes + r.value;
      assert lines[..i + 1][..i] == lines[..i];
      i := i + 1;
    }
    assert lines[..i] == lines;
  }

  lemma PayloadOf(text: seq<byte>)
    requires Decode(text).Some?
    ensures Decode(text) == Some(Payload(text))
  {
  }

  // The two together.
  method RoundTrip(input: seq<seq<byte>>) returns (bytes: seq<byte>)
    ensures bytes == Flatten(input)
  {
    var lines := EncodeTextList(input);
    bytes := DecodeLines(lines);
  }
}
