// Message bodies in a packet file: reading them line by line through a buffer of any size,
// and what of a written body comes back.
module PktBody {
  import opened Common

  const CR: byte := 13
  const LF: byte := 10
  const CRLF: seq<byte> := [CR, LF]

  // A file open for reading.
  class InFile {
    const data: seq<byte>
    var pos: nat

    ghost predicate Valid()
      reads this
    {
      pos <= |data|
    }

    // What has not been read yet.
    ghost function Rest(): seq<byte>
      requires Valid()
      reads this
    {
      data[pos..]
    }

    constructor (d: seq<byte>)
      ensures Valid() && data == d && pos == 0
    {
      data, pos := d, 0;
    }

    // getc: -1 is EOF
    method Getc() returns (c: int)
      requires Valid()
      modifies this
      ensures Valid()
      ensures old(Rest()) == [] ==> c == -1 && pos == old(pos)
      ensures old(Rest()) != [] ==> pos == old(pos) + 1 && c == old(Rest()[0]) as int && Rest() == old(Rest()[1..])
    {
      if pos == |data| { return -1; }
      c := data[pos];
      pos := pos + 1;
    }

    method Ungetc()
      requires Valid() && pos > 0
      modifies this
      ensures Valid() && pos == old(pos) - 1
    {
      pos := pos - 1;
    }
  }

  datatype Status = Error | Line | MsgEnd | MsgType

  // A line of the buffer, how the reading of it ended, and how many bytes were read.
  datatype Got = Got(status: Status, buf: seq<byte>, used: nat)

  function Prepend(b: seq<byte>, n: nat, g: Got): Got {
    Got(g.status, b + g.buf, n + g.used)
  }

  function NonZero(a: byte, b: byte): (r: seq<byte>)
    ensures |r| <= 2
  {
    (if a != 0 then [a] else []) + (if b != 0 then [b] else [])
  }

  // pkt_get_line on the unread bytes s with `size` bytes of buffer left; readLf after a CR.
  function GetLine(s: seq<byte>, size: int, readLf: bool): (g: Got)
    ensures g.used <= |s|
    ensures g.status.Line? && size > 3 && !readLf ==> g.used > 0
  {
    if size <= 3 then Got(Line, [], 0)
    else if readLf && !(s != [] && s[0] == LF) then Got(Line, [], 0)
    else if s == [] then Got(Error, [], 0)
    else if s[0] == 0 then
      if |s| < 3 then Got(Error, [], |s|)
      else if s[2] == 0 && s[1] == 2 then Got(MsgType, [], 3)
      else if s[2] == 0 && s[1] == 0 then Got(MsgEnd, [], 3)
      else
        var b := NonZero(s[1], s[2]);
        Prepend(b, 3, GetLine(s[3..], size - |b|, readLf))
    else if s[0] == 2 then
      if |s| < 2 then Got(Error, [], |s|)
      else if s[1] == 0 then Got(MsgType, [], 2)
      else Prepend(s[..2], 2, GetLine(s[2..], size - 2, readLf))
    else Prepend([s[0]], 1, GetLine(s[1..], size - 1, readLf || s[0] == CR))
  }

  // pkt_get_body: the lines with a CR LF closing an incomplete last one.
  function GetBody(s: seq<byte>, size: int): (r: (seq<seq<byte>>, Status, nat))
    requires size > 3
    ensures r.2 <= |s|
    decreases |s|
  {
    var g := GetLine(s, size, false);
    if g.status.Line? then
      var r := GetBody(s[g.used..], size);
      ([g.buf] + r.0, r.1, g.used + r.2)
    else (if !g.status.Error? && g.buf != [] then [g.buf + CRLF] else [], g.status, g.used)
  }

  // ---- as the source does it ----

  lemma PrependBoth(a: seq<byte>, n: nat, b: seq<byte>, m: nat, g: Got)
    ensures Prepend(a, n, Prepend(b, m, g)) == Prepend(a + b, n + m, g)
  {
    assert a + (b + g.buf) == a + b + g.buf;
  }

  method PktGetLine(f: InFile, buf: array<byte>) returns (status: Status)
    requires f.Valid()
    requires buf.Length > 3
    modifies f, buf
    ensures f.Valid()
    ensures var g := GetLine(old(f.Rest()), buf.Length, false);
      && status == g.status && f.pos == old(f.pos) + g.used
      && (!status.Error? ==> |g.buf| < buf.Length && buf[..|g.buf|] == g.buf && buf[|g.buf|] == 0)
  {
    hide GetLine;
    var p, size, readLf := 0, buf.Length, false;
    ghost var whole := GetLine(f.Rest(), size, false);
    assert buf[..0] == [];
    PrependNothing(whole);
    while size > 3
      invariant f.Valid() && f.pos >= old(f.pos)
      invariant 0 <= p && p + size == buf.Length && size >= 2
      invariant whole == Prepend(buf[..p], f.pos - old(f.pos), GetLine(f.Rest(), size, readLf))
      decreases |f.data| - f.pos
    {
      ghost var acc, used := buf[..p], f.pos - old(f.pos);
      var done, q, left, lf := Turn(f, buf, p, size, readLf);
      if done.Some? {
        assert !done.value.Error? ==> acc + [] == acc == buf[..p];
        return done.value;
      }
      PrependBoth(acc, used, buf[p..q], f.pos - old(f.pos) - used, GetLine(f.Rest(), left, lf));
      assert buf[..q] == acc + buf[p..q];
      p, size, readLf := q, left, lf;
    }
    LineStep(f.Rest(), size, readLf);
    buf[p] := 0;
    assert buf[..p] + [] == buf[..p];
    return Line;
  }

  // One turn of its loop: the end of the line, or some more bytes of it in the buffer.
  method Turn(f: InFile, buf: array<byte>, p: nat, size: nat, readLf: bool)
      returns (done: Option<Status>, q: nat, left: nat, lf: bool)
    requires f.Valid() && p + size == buf.Length && size > 3
    modifies f, buf
    ensures f.Valid() && f.pos >= old(f.pos)
    ensures var g := GetLine(old(f.Rest()), size, readLf);
      if done.Some? then g == Got(done.value, [], f.pos - old(f.pos))
      else (&& f.pos > old(f.pos) && p <= q && q + left == buf.Length && left >= 2
            && g == Prepend(buf[p..q], f.pos - old(f.pos), GetLine(f.Rest(), left, lf)))
    ensures done.Some? && !done.value.Error? ==> buf[..p] == old(buf[..p]) && buf[p] == 0
    ensures done.None? ==> buf[..p] == old(buf[..p])
  {
    hide GetLine;
    ghost var s := f.Rest();
    LineStep(s, size, readLf);
    q, left, lf := p, size, readLf;
    var c := f.Getc();
    if readLf && c != LF as int {
      if c != -1 { f.Ungetc(); }
      buf[p] := 0;
      done := Some(Line);
    } else if c == -1 {
      done := Some(Error);
    } else if c == 0 {
      done, q, left := AfterZero(f, buf, p, size, readLf);
    } else if c == 2 {
      done, q, left := AfterTwo(f, buf, p, size, readLf);
    } else {
      done := None;
      lf := readLf || c == CR as int;
      buf[p] := c;
      q, left := p + 1, size - 1;
      assert buf[p..q] == [s[0]];
    }
  }

  // A zero byte was read: the end of the message, or an orphan left out of the line.
  method AfterZero(f: InFile, buf: array<byte>, p: nat, size: nat, readLf: bool)
      returns (done: Option<Status>, q: nat, left: nat)
    requires f.Valid() && f.pos > 0 && f.data[f.pos - 1] == 0 && p + size == buf.Length && size > 3
    modifies f, buf
    ensures f.Valid() && f.pos >= old(f.pos)
    ensures var s := [0] + old(f.Rest());
      if |s| < 3 then done == Some(Error) && f.pos == old(f.pos) + |s| - 1
      else if s[2] == 0 && s[1] == 2 then done == Some(MsgType) && f.pos == old(f.pos) + 2
      else if s[2] == 0 && s[1] == 0 then done == Some(MsgEnd) && f.pos == old(f.pos) + 2
      else (&& done == None && f.pos == old(f.pos) + 2 && f.Rest() == s[3..] && p <= q && q + left == buf.Length
            && left >= 2 && buf[p..q] == NonZero(s[1], s[2]))
    ensures done.Some? && !done.value.Error? ==> buf[..p] == old(buf[..p]) && buf[p] == 0
    ensures done.None? ==> buf[..p] == old(buf[..p])
  {
    q, left := p, size;
    ghost var r := f.Rest();
    var c1 := f.Getc();
    var c2 := f.Getc();
    if c1 == -1 || c2 == -1 {
      return Some(Error), q, left;
    }
    assert f.Rest() == r[2..] == ([0] + r)[3..];
    if c2 == 0 && (c1 == 2 || c1 == 0) {
      buf[p] := 0;
      return Some(if c1 == 2 then MsgType else MsgEnd), q, left;
    }
    if c1 != 0 {
      buf[q] := c1;
      q, left := q + 1, left - 1;
    }
    if c2 != 0 {
      buf[q] := c2;
      q, left := q + 1, left - 1;
    }
    done := None;
  }

  // A byte 2 was read: a zero after it ends the message early.
  method AfterTwo(f: InFile, buf: array<byte>, p: nat, size: nat, readLf: bool)
      returns (done: Option<Status>, q: nat, left: nat)
    requires f.Valid() && f.pos > 0 && f.data[f.pos - 1] == 2 && p + size == buf.Length && size > 3
    modifies f, buf
    ensures f.Valid() && f.pos >= old(f.pos)
    ensures var s := [2] + old(f.Rest());
      if |s| < 2 then done == Some(Error) && f.pos == old(f.pos)
      else if s[1] == 0 then done == Some(MsgType) && f.pos == old(f.pos) + 1
      else (&& done == None && f.pos == old(f.pos) + 1 && f.Rest() == s[2..] && q == p + 2 && left == size - 2
            && buf[p..q] == s[..2])
    ensures done.Some? && !done.value.Error? ==> buf[..p] == old(buf[..p]) && buf[p] == 0
    ensures done.None? ==> buf[..p] == old(buf[..p])
  {
    q, left := p, size;
    ghost var r := f.Rest();
    var c1 := f.Getc();
    if c1 == -1 {
      return Some(Error), q, left;
    }
    assert f.Rest() == r[1..] == ([2] + r)[2..];
    if c1 == 0 {
      buf[p] := 0;
      return Some(MsgType), q, left;
    }
    buf[p], buf[p + 1] := 2, c1;
    return None, p + 2, size - 2;
  }

  lemma PrependNothing(g: Got)
    ensures Prepend([], 0, g) == g
  {
    assert [] + g.buf == g.buf;
  }

  // GetLine, unfolded once.
  lemma LineStep(s: seq<byte>, size: int, readLf: bool)
    ensures var g := GetLine(s, size, readLf);
      if size <= 3 then g == Got(Line, [], 0)
      else if readLf && !(s != [] && s[0] == LF) then g == Got(Line, [], 0)
      else if s == [] then g == Got(Error, [], 0)
      else if s[0] == 0 then
        if |s| < 3 then g == Got(Error, [], |s|)
        else if s[2] == 0 && s[1] == 2 then g == Got(MsgType, [], 3)
        else if s[2] == 0 && s[1] == 0 then g == Got(MsgEnd, [], 3)
        else g == Prepend(NonZero(s[1], s[2]), 3, GetLine(s[3..], size - |NonZero(s[1], s[2])|, readLf))
      else if s[0] == 2 then
        if |s| < 2 then g == Got(Error, [], |s|)
        else if s[1] == 0 then g == Got(MsgType, [], 2)
        else g == Prepend(s[..2], 2, GetLine(s[2..], size - 2, readLf))
      else g == Prepend([s[0]], 1, GetLine(s[1..], size - 1, readLf || s[0] == CR))
  {
    hide NonZero;
  }

  lemma {:induction false} NoZeros(s: seq<byte>, size: int, readLf: bool)
    ensures 0 !in GetLine(s, size, readLf).buf
    decreases |s|
  {
    hide GetLine;
    LineStep(s, size, readLf);
    if size <= 3 || s == [] || (readLf && s[0] != LF) {
    } else if s[0] == 0 {
      if |s| >= 3 && !(s[2] == 0 && (s[1] == 2 || s[1] == 0)) {
        NoZeros(s[3..], size - |NonZero(s[1], s[2])|, readLf);
      }
    } else if s[0] == 2 {
      if |s| >= 2 && s[1] != 0 {
        NoZeros(s[2..], size - 2, readLf);
      }
    } else {
      NoZeros(s[1..], size - 1, readLf || s[0] == CR);
    }
  }

  // The length of the C string in the buffer.
  method StrLen(buf: array<byte>, ghost len: nat) returns (n: nat)
    requires len < buf.Length && 0 !in buf[..len] && buf[len] == 0
    ensures n == len
  {
    n := 0;
    while buf[n] != 0
      invariant n <= len
      decreases len - n
    {
      assert n != len;
      n := n + 1;
    }
  }

  method PktGetBody(f: InFile, buf: array<byte>) returns (lines: seq<seq<byte>>, status: Status)
    requires f.Valid() && buf.Length > 3
    modifies f, buf
    ensures f.Valid() && (lines, status, f.pos - old(f.pos)) == GetBody(old(f.Rest()), buf.Length)
  {
    hide GetLine, GetBody;
    lines := [];
    ghost var s := f.Rest();
    status := PktGetLine(f, buf);
    ghost var done, g := 0, GetLine(s, buf.Length, false);
    assert s[0..] == s && Ahead([], 0, GetBody(s, buf.Length)) == GetBody(s, buf.Length) by { AheadNothing(GetBody(s, buf.Length)); }
    while status.Line?
      invariant f.Valid() && done + g.used == f.pos - old(f.pos) <= |s| && g.status == status
      invariant g == GetLine(s[done..], buf.Length, false)
      invariant GetBody(s, buf.Length) == Ahead(lines, done, GetBody(s[done..], buf.Length))
      invariant !status.Error? ==> |g.buf| < buf.Length && buf[..|g.buf|] == g.buf && buf[|g.buf|] == 0
      decreases |s| - done
    {
      BodyStep(s[done..], buf.Length);
      assert s[done..][g.used..] == s[done + g.used..] == f.Rest();
      NoZeros(s[done..], buf.Length, false);
      AheadLine(lines, done, g, GetBody(f.Rest(), buf.Length));
      var n := StrLen(buf, |g.buf|);
      lines := lines + [buf[..n]];
      done := done + g.used;
      status := PktGetLine(f, buf);
      g := GetLine(s[done..], buf.Length, false);
    }
    BodyStep(s[done..], buf.Length);
    if !status.Error? {
      NoZeros(s[done..], buf.Length, false);
      var n := StrLen(buf, |g.buf|);
      if n > 0 {
        lines := lines + [buf[..n] + CRLF];
        return;
      }
    }
    assert lines + [] == lines;
  }

  lemma BodyStep(s: seq<byte>, size: int)
    requires size > 3
    ensures var g := GetLine(s, size, false);
      GetBody(s, size) ==
        if g.status.Line? then Ahead([g.buf], g.used, GetBody(s[g.used..], size))
        else (if !g.status.Error? && g.buf != [] then [g.buf + CRLF] else [], g.status, g.used)
  {
    hide GetLine;
  }

  lemma AheadNothing(r: (seq<seq<byte>>, Status, nat))
    ensures Ahead([], 0, r) == r
  {
    assert [] + r.0 == r.0;
  }

  lemma AheadLine(lines: seq<seq<byte>>, n: nat, g: Got, r: (seq<seq<byte>>, Status, nat))
    ensures Ahead(lines, n, Ahead([g.buf], g.used, r)) == Ahead(lines + [g.buf], n + g.used, r)
  {
    assert lines + ([g.buf] + r.0) == lines + [g.buf] + r.0;
  }

  function Ahead(lines: seq<seq<byte>>, n: nat, r: (seq<seq<byte>>, Status, nat)): (seq<seq<byte>>, Status, nat) {
    (lines + r.0, r.1, n + r.2)
  }

  // ---- nothing but zero bytes is left out ----

  function WithoutZeros(s: seq<byte>): seq<byte> {
    if s == [] then [] else (if s[0] == 0 then [] else [s[0]]) + WithoutZeros(s[1..])
  }

  lemma {:induction false} WithoutZerosBoth(a: seq<byte>, b: seq<byte>)
    ensures WithoutZeros(a + b) == WithoutZeros(a) + WithoutZeros(b)
  {
    if a == [] {
      assert a + b == b;
    } else {
      assert (a + b)[1..] == a[1..] + b;
      WithoutZerosBoth(a[1..], b);
    }
  }

  // The byte 2 that belongs to the mark of another message.
  function Mark(status: Status): seq<byte> {
    if status == MsgType then [2] else []
  }

  lemma {:induction false} FewWithoutZeros(s: seq<byte>)
    requires |s| <= 3
    ensures |s| == 1 ==> WithoutZeros(s) == if s[0] == 0 then [] else [s[0]]
    ensures |s| == 2 ==> WithoutZeros(s) == NonZero(s[0], s[1])
    ensures |s| == 3 && s[0] == 0 ==> WithoutZeros(s) == NonZero(s[1], s[2])
  {
    if |s| > 1 {
      FewWithoutZeros(s[1..]);
    }
  }

  // Whatever the bytes are, zero bytes and bytes 2 where they may be: what a line holds is what
  // was read for it without the zeros and without the mark of the next message.
  lemma {:induction false} LineKeeps(s: seq<byte>, size: int, lf: bool)
    requires !GetLine(s, size, lf).status.Error?
    ensures var g := GetLine(s, size, lf); WithoutZeros(s[..g.used]) == g.buf + Mark(g.status)
    decreases |s|
  {
    hide GetLine, WithoutZeros, NonZero;
    LineStep(s, size, lf);
    var g := GetLine(s, size, lf);
    FewWithoutZeros(s[..g.used][..0]);
    assert WithoutZeros([]) == [] by { NothingWithoutZeros(); }
    if size <= 3 || (lf && !(s != [] && s[0] == LF)) {
      assert s[..0] == [];
    } else if s[0] == 0 {
      FewWithoutZeros(s[..3]);
      TwoZeros();
      if !(s[2] == 0 && (s[1] == 2 || s[1] == 0)) {
        LineKeepsOn(s, 3, size - |NonZero(s[1], s[2])|, lf, NonZero(s[1], s[2]));
      }
    } else if s[0] == 2 {
      FewWithoutZeros(s[..2]);
      if s[1] == 0 {
        assert NonZero(2, 0) == [2] by { TwoZeros(); }
      } else {
        assert NonZero(s[0], s[1]) == s[..2] by { BothNonZero(s[0], s[1]); }
        LineKeepsOn(s, 2, size - 2, lf, s[..2]);
      }
    } else {
      FewWithoutZeros(s[..1]);
      LineKeepsOn(s, 1, size - 1, lf || s[0] == CR, [s[0]]);
    }
  }

  lemma LineKeepsOn(s: seq<byte>, k: nat, size: int, lf: bool, first: seq<byte>)
    requires 1 <= k <= |s| && !GetLine(s[k..], size, lf).status.Error? && WithoutZeros(s[..k]) == first
    ensures var g := Prepend(first, k, GetLine(s[k..], size, lf));
      g.used <= |s| && WithoutZeros(s[..g.used]) == g.buf + Mark(g.status)
    decreases |s|, -1
  {
    hide GetLine, WithoutZeros;
    var g := GetLine(s[k..], size, lf);
    LineKeeps(s[k..], size, lf);
    assert s[..k + g.used] == s[..k] + s[k..][..g.used];
    WithoutZerosBoth(s[..k], s[k..][..g.used]);
    assert first + (g.buf + Mark(g.status)) == (first + g.buf) + Mark(g.status);
  }

  lemma NothingWithoutZeros()
    ensures WithoutZeros([]) == []
  {
  }

  lemma TwoZeros()
    ensures NonZero(0, 0) == [] && NonZero(2, 0) == [2]
  {
  }

  lemma BothNonZero(a: byte, b: byte)
    requires a != 0 && b != 0
    ensures NonZero(a, b) == [a, b]
  {
  }

  // The text, or the text and a CR LF.
  predicate UpToCrLf(text: seq<byte>, t: seq<byte>) {
    t == text || t == text + CRLF
  }

  // So for a whole body, but for the CR LF that may be added at its end.
  lemma {:induction false} BodyKeeps(s: seq<byte>, size: int) returns (text: seq<byte>)
    requires size > 3 && !GetBody(s, size).1.Error?
    ensures var r := GetBody(s, size);
      WithoutZeros(s[..r.2]) == text + Mark(r.1) && UpToCrLf(text, Flatten(r.0))
    decreases |s|
  {
    hide GetLine, GetBody, WithoutZeros;
    var g, r := GetLine(s, size, false), GetBody(s, size);
    BodyStep(s, size);
    LineKeeps(s, size, false);
    if g.status.Line? {
      var more := s[g.used..];
      var rest := BodyKeeps(more, size);
      var k := GetBody(more, size).2;
      text := g.buf + rest;
      assert s[..r.2] == s[..g.used] + more[..k];
      WithoutZerosBoth(s[..g.used], more[..k]);
      assert Mark(Line) == [] && g.buf + [] == g.buf;
      assert g.buf + (rest + Mark(r.1)) == text + Mark(r.1);
      assert r.0[1..] == GetBody(more, size).0 && Flatten(r.0) == g.buf + Flatten(r.0[1..]);
      assert g.buf + (rest + CRLF) == text + CRLF;
    } else {
      text := g.buf;
      assert Flatten([]) == [] && text + CRLF == g.buf + CRLF;
      FlattenOne(g.buf + CRLF);
    }
  }

  // ---- what comes back of a body ----

  // Read pairwise after each byte 2, the body ends in a 2 without a partner.
  predicate Dangling(b: seq<byte>) {
    b != [] && if b[0] == 2 then |b| == 1 || Dangling(b[2..]) else Dangling(b[1..])
  }

  // The body ends in a CR, which is not the partner of a byte 2.
  predicate EndsInCr(b: seq<byte>) {
    b != [] && if b[0] == 2 then |b| > 1 && EndsInCr(b[2..]) else b == [CR] || EndsInCr(b[1..])
  }

  // What follows the zero byte that ends a body: the next message's type, or the end of the packet.
  predicate IsNext(t: seq<byte>) {
    t == [0, 0] || t == [2, 0]
  }

  // A line read at the start of the body b, up to its end at most.
  predicate Reads(b: seq<byte>, t: seq<byte>, g: Got) {
    if g.status.Line? then
      (&& g.used <= |b| && g.buf == b[..g.used] && Dangling(b[g.used..]) == Dangling(b)
       && (EndsInCr(b) ==> b[g.used..] == [] || EndsInCr(b[g.used..])))
    else
      (&& !EndsInCr(b)
       && g == if Dangling(b) then Got(MsgType, b[..|b| - 1], |b| + 1)
               else Got(if t == [0, 0] then MsgEnd else MsgType, b, |b| + 3))
  }

  lemma ReadsMore(b: seq<byte>, k: nat, t: seq<byte>, g: Got)
    requires k <= |b| && Reads(b[k..], t, g) && Dangling(b) == Dangling(b[k..])
    requires EndsInCr(b) ==> EndsInCr(b[k..]) || (b[k..] == [] && g.status.Line?)
    ensures Reads(b, t, Prepend(b[..k], k, g))
  {
    hide Dangling, EndsInCr;
    var c := b[k..];
    if g.status.Line? {
      assert b[..k] + c[..g.used] == b[..k + g.used] && c[g.used..] == b[k + g.used..];
    } else if Dangling(b) {
      assert c != [] by { NoneDangling(); }
      assert b[..k] + c[..|c| - 1] == b[..|b| - 1];
    } else {
      assert b[..k] + c == b;
    }
  }

  lemma NoneDangling()
    ensures !Dangling([]) && !EndsInCr([])
  {
  }

  lemma {:induction false} BodyLine(b: seq<byte>, t: seq<byte>, rest: seq<byte>, size: int, lf: bool)
    requires 0 !in b && IsNext(t) && size >= 2
    ensures Reads(b, t, GetLine(b + ([0] + t + rest), size, lf))
    ensures lf && b == [] ==> GetLine(b + ([0] + t + rest), size, lf).status.Line?
    decreases |b|
  {
    hide GetLine, Reads;
    var end := [0] + t + rest;
    var s := b + end;
    LineStep(s, size, lf);
    if size <= 3 || (lf && s[0] != LF) {
      ReadsNothing(b, t);
    } else if b == [] {
      assert s == end && s[1] == t[0] && s[2] == t[1];
      ReadsEnd(b, t);
    } else if b[0] == 2 {
      if |b| == 1 {
        assert s[1] == 0;
        ReadsDangling(b, t);
      } else {
        assert s[1] == b[1] && b[1] in b;
        assert s[2..] == b[2..] + end && s[..2] == b[..2];
        BodyLine(b[2..], t, rest, size - 2, lf);
        ReadsMore(b, 2, t, GetLine(s[2..], size - 2, lf));
      }
    } else {
      assert s[0] == b[0] && b[0] in b;
      assert s[1..] == b[1..] + end && [s[0]] == b[..1];
      BodyLine(b[1..], t, rest, size - 1, lf || b[0] == CR);
      ReadsMore(b, 1, t, GetLine(s[1..], size - 1, lf || b[0] == CR));
    }
  }

  lemma ReadsNothing(b: seq<byte>, t: seq<byte>)
    ensures Reads(b, t, Got(Line, [], 0))
  {
    assert b[..0] == [] && b[0..] == b;
  }

  lemma ReadsEnd(b: seq<byte>, t: seq<byte>)
    requires b == [] && IsNext(t)
    ensures Reads(b, t, Got(if t == [0, 0] then MsgEnd else MsgType, [], 3))
  {
  }

  lemma ReadsDangling(b: seq<byte>, t: seq<byte>)
    requires b == [2]
    ensures Reads(b, t, Got(MsgType, [], 2))
  {
    assert b[..0] == [];
  }

  // Lines with the bytes of the body, and a CR LF after them if the last line was left open.
  predicate LinesOf(b: seq<byte>, lines: seq<seq<byte>>) {
    && (Flatten(lines) == b || Flatten(lines) == b + CRLF)
    && (b == [] || EndsInCr(b) ==> Flatten(lines) == b)
  }

  // What is read of a body.
  predicate BodyRead(b: seq<byte>, t: seq<byte>, r: (seq<seq<byte>>, Status, nat)) {
    && r.1 == (if t == [0, 0] then MsgEnd else MsgType)
    && r.2 == |b| + 3
    && LinesOf(b, r.0)
  }

  // What is read of a dangling body: the message ends two bytes early.
  predicate BodyCut(b: seq<byte>, r: (seq<seq<byte>>, Status, nat)) {
    && r.1 == MsgType
    && r.2 == |b| + 1 && b != []
    && (Flatten(r.0) == b[..|b| - 1] || Flatten(r.0) == b[..|b| - 1] + CRLF)
  }

  lemma {:induction false} BodyLines(b: seq<byte>, t: seq<byte>, rest: seq<byte>, size: int)
    requires 0 !in b && IsNext(t) && size > 3
    ensures var r := GetBody(b + ([0] + t + rest), size);
      if Dangling(b) then BodyCut(b, r) else BodyRead(b, t, r)
    decreases |b|
  {
    hide GetLine, GetBody, Dangling, EndsInCr;
    NoneDangling();
    var s := b + ([0] + t + rest);
    var g := GetLine(s, size, false);
    BodyLine(b, t, rest, size, false);
    BodyStep(s, size);
    if g.status.Line? {
      var c := b[g.used..];
      assert s[g.used..] == c + ([0] + t + rest);
      assert forall x :: x in c ==> x in b;
      BodyLines(c, t, rest, size);
      var r := GetBody(s[g.used..], size);
      assert ([g.buf] + r.0)[1..] == r.0 && Flatten([g.buf] + r.0) == g.buf + Flatten(r.0);
      LinePlus(b, g.used, Flatten(r.0));
    } else {
      assert Flatten([]) == [];
      assert Flatten([g.buf + CRLF]) == g.buf + CRLF by { FlattenOne(g.buf + CRLF); }
    }
  }

  lemma LinePlus(b: seq<byte>, k: nat, l: seq<byte>)
    requires k <= |b|
    ensures l == b[k..] ==> b[..k] + l == b
    ensures l == b[k..] + CRLF ==> b[..k] + l == b + CRLF
    ensures b[k..] != [] && l == b[k..][..|b| - k - 1] ==> b[..k] + l == b[..|b| - 1]
    ensures b[k..] != [] && l == b[k..][..|b| - k - 1] + CRLF ==> b[..k] + l == b[..|b| - 1] + CRLF
  {
  }

  // A body without zero bytes is read back, through a buffer of any size from 4 on, exactly
  // when it does not end in an unpaired byte 2; the reader then stops right after its end.
  lemma BodyReadBack(b: seq<byte>, t: seq<byte>, rest: seq<byte>, size: int)
    requires 0 !in b && IsNext(t) && size > 3
    ensures BodyRead(b, t, GetBody(b + ([0] + t + rest), size)) <==> !Dangling(b)
  {
    hide GetBody, Dangling, EndsInCr;
    BodyLines(b, t, rest, size);
  }

  // ---- where lines end ----

  // After m bytes the line ends: the buffer is full, or a CR was read, nothing but LFs after it,
  // and no LF follows. `lf` says that the CR is behind us.
  predicate EndsAt(s: seq<byte>, m: nat, left: int, lf: bool)
    requires m <= |s|
  {
    || m + 3 >= left
    || ((m == |s| || s[m] != 10)
        && ((lf && OnlyLfs(s, 0, m)) || exists k :: 0 <= k < m && s[k] == 13 && OnlyLfs(s, k + 1, m)))
  }

  predicate OnlyLfs(s: seq<byte>, i: nat, j: nat)
    requires i <= j <= |s|
  {
    forall k :: i <= k < j ==> s[k] == 10
  }

  lemma EndsStep(s: seq<byte>, m: nat, left: int, lf: bool)
    requires 1 <= m <= |s| && !EndsAt(s, 0, left, lf)
    ensures EndsAt(s, m, left, lf) <==> EndsAt(s[1..], m - 1, left - 1, lf || s[0] == 13)
  {
    var t := s[1..];
    assert OnlyLfs(s, 1, m) <==> OnlyLfs(t, 0, m - 1) by { LfsShift(s, 1, m); }
    assert OnlyLfs(s, 0, m) <==> s[0] == 10 && OnlyLfs(s, 1, m);
    assert OnlyLfs(s, 0, 0);
    if k :| 1 <= k < m && s[k] == 13 && OnlyLfs(s, k + 1, m) {
      LfsShift(s, k + 1, m);
      assert t[k - 1] == 13 && OnlyLfs(t, k - 1 + 1, m - 1);
    }
    if k :| 0 <= k < m - 1 && t[k] == 13 && OnlyLfs(t, k + 1, m - 1) {
      LfsShift(s, k + 2, m);
      assert s[k + 1] == 13 && OnlyLfs(s, k + 1 + 1, m);
    }
  }

  lemma LfsShift(s: seq<byte>, i: nat, j: nat)
    requires 1 <= i <= j <= |s|
    ensures OnlyLfs(s, i, j) <==> OnlyLfs(s[1..], i - 1, j - 1)
  {
    if OnlyLfs(s[1..], i - 1, j - 1) {
      forall k | i <= k < j ensures s[k] == 10 {
        assert s[1..][k - 1] == 10;
      }
    }
  }

  // Text without bytes 0 and 2: a line ends at the first such place, and holds all up to there.
  lemma {:induction false} LineIsFirstEnd(s: seq<byte>, n: nat, left: int, lf: bool)
    requires n <= |s| && 0 !in s[..n] && 2 !in s[..n]
    requires EndsAt(s, n, left, lf) && forall m: nat :: m < n ==> !EndsAt(s, m, left, lf)
    ensures GetLine(s, left, lf) == Got(Line, s[..n], n)
    decreases n
  {
    hide GetLine, EndsAt;
    LineStep(s, left, lf);
    StartEnds(s, left, lf);
    if n == 0 {
      assert s[..0] == [];
    } else {
      var t, l, r := s[1..], left - 1, lf || s[0] == 13;
      assert s[0] == s[..n][0] && t[..n - 1] == s[..n][1..];
      assert EndsAt(t, n - 1, l, r) by { EndsStep(s, n, left, lf); }
      forall m: nat | m < n - 1 ensures !EndsAt(t, m, l, r) {
        EndsStep(s, m + 1, left, lf);
      }
      LineIsFirstEnd(t, n - 1, l, r);
      assert [s[0]] + t[..n - 1] == s[..n];
    }
  }

  lemma StartEnds(s: seq<byte>, left: int, lf: bool)
    ensures EndsAt(s, 0, left, lf) <==> left <= 3 || (lf && (s == [] || s[0] != 10))
  {
  }

  // Read through a buffer of `size` bytes, `left` of them unused so far, the body ends where a
  // line does: behind a CR and all LFs that follow it, or where the buffer is full. A byte 2 and
  // its partner stay together. `lf` says that the line has its CR.
  predicate EndsLine(b: seq<byte>, left: int, size: int, lf: bool)
    requires size > 3
    decreases |b|, if left <= 3 then true else lf
  {
    if left <= 3 || (lf && (b == [] || b[0] != LF)) then b == [] || EndsLine(b, size, size, false)
    else if b == [] then false
    else if b[0] == 2 then |b| > 1 && EndsLine(b[2..], left - 2, size, lf)
    else EndsLine(b[1..], left - 1, size, lf || b[0] == CR)
  }

  lemma {:induction false} LineEnds(b: seq<byte>, t: seq<byte>, rest: seq<byte>, left: int, size: int, lf: bool)
    requires 0 !in b && IsNext(t) && left >= 2 && size > 3 && !Dangling(b)
    ensures var g := GetLine(b + ([0] + t + rest), left, lf);
      if !g.status.Line? then !EndsLine(b, left, size, lf)
      else g.used <= |b| && (EndsLine(b, left, size, lf) <==> g.used == |b| || EndsLine(b[g.used..], size, size, false))
    decreases |b|
  {
    hide GetLine;
    var end := [0] + t + rest;
    var s := b + end;
    LineStep(s, left, lf);
    if left <= 3 || (lf && s[0] != LF) {
      assert b[0..] == b;
    } else if b == [] {
      assert s == end && s[1] == t[0] && s[2] == t[1];
    } else if b[0] == 2 {
      assert s[0] == b[0] && s[1] == b[1] && b[1] in b;
      assert s[2..] == b[2..] + end;
      LineEnds(b[2..], t, rest, left - 2, size, lf);
      var g := GetLine(s[2..], left - 2, lf);
      assert g.used <= |b| - 2 ==> b[2..][g.used..] == b[2 + g.used..];
    } else {
      assert s[0] == b[0] && b[0] in b;
      assert s[1..] == b[1..] + end;
      LineEnds(b[1..], t, rest, left - 1, size, lf || b[0] == CR);
      var g := GetLine(s[1..], left - 1, lf || b[0] == CR);
      assert g.used <= |b| - 1 ==> b[1..][g.used..] == b[1 + g.used..];
    }
  }

  // A CR LF is added exactly to a body that does not end its last line itself.
  lemma {:induction false} BodyEnds(b: seq<byte>, t: seq<byte>, rest: seq<byte>, size: int)
    requires 0 !in b && IsNext(t) && size > 3 && !Dangling(b)
    ensures Flatten(GetBody(b + ([0] + t + rest), size).0) ==
            if b == [] || EndsLine(b, size, size, false) then b else b + CRLF
    decreases |b|
  {
    hide GetLine, GetBody, Dangling, EndsInCr, EndsLine;
    NoneDangling();
    var s := b + ([0] + t + rest);
    var g := GetLine(s, size, false);
    BodyLine(b, t, rest, size, false);
    LineEnds(b, t, rest, size, size, false);
    BodyStep(s, size);
    if g.status.Line? {
      var c := b[g.used..];
      assert s[g.used..] == c + ([0] + t + rest);
      assert forall x :: x in c ==> x in b;
      BodyEnds(c, t, rest, size);
      var r := GetBody(s[g.used..], size);
      assert ([g.buf] + r.0)[1..] == r.0 && Flatten([g.buf] + r.0) == g.buf + Flatten(r.0);
      LinePlus(b, g.used, Flatten(r.0));
    } else {
      assert Flatten([]) == [];
      assert Flatten([g.buf + CRLF]) == g.buf + CRLF by { FlattenOne(g.buf + CRLF); }
    }
  }
}
