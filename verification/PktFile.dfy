// Packet files: a header, packed messages and a final zero word.
module PktFile {
  import opened Common
  import opened PktBody
  import opened PktHeader

  const MSG_MAXDATE := 20
  const MSG_MAXNAME := 36
  const MSG_MAXSUBJ := 72
  const NAMEBUFSIZE := 4 * MSG_MAXNAME  // of the subject, too

  // ---- messages ----

  datatype MsgHdr = MsgHdr(from: Node, to: Node, attr: int, cost: int, date: Option<seq<byte>>,
    nameTo: Option<seq<byte>>, nameFrom: Option<seq<byte>>, subject: Option<seq<byte>>)

  datatype Message = Message(from: Node, to: Node, attr: int, cost: int, date: seq<byte>,
    nameTo: seq<byte>, nameFrom: seq<byte>, subject: seq<byte>, body: seq<byte>)

  // pkt_msg_sanitize_strings
  function Cut(s: seq<byte>, limit: nat): (r: seq<byte>)
    requires limit > 0
    ensures |r| < limit && r <= s
  {
    if |s| < limit then s else s[..limit - 1]
  }

  // pkt_put_msg_hdr without the type word and without kludges
  function PutMsgHdr(m: Message): seq<byte> {
    Words([m.from.node, m.to.node, m.from.net, m.to.net, m.attr, m.cost]) + m.date + [0]
    + Cut(m.nameTo, MSG_MAXNAME) + [0] + Cut(m.nameFrom, MSG_MAXNAME) + [0] + Cut(m.subject, MSG_MAXSUBJ) + [0]
  }

  // From a type word on: the messages and the final zero word.
  function PutMsgs(ms: seq<Message>): seq<byte> {
    if ms == [] then Int16(0) else Int16(2) + PutMsgHdr(ms[0]) + ms[0].body + [0] + PutMsgs(ms[1..])
  }

  // The parts of a message body, each line with its own end.
  datatype MsgBody = MsgBody(area: Option<seq<byte>>, kludge: seq<seq<byte>>, rfc: seq<seq<byte>>, body: seq<seq<byte>>,
    tear: Option<seq<byte>>, origin: Option<seq<byte>>, seenby: seq<seq<byte>>, path: seq<seq<byte>>, via: seq<seq<byte>>)

  function Maybe(line: Option<seq<byte>>): seq<seq<byte>> {
    if line.None? then [] else [line.value]
  }

  // All lines in the order of the message.
  function AllLines(b: MsgBody): seq<seq<byte>> {
    Maybe(b.area) + b.kludge + b.rfc + b.body + Maybe(b.tear) + Maybe(b.origin) + b.seenby + b.path + b.via
  }

  // tl_fput
  method TlFput(out: seq<byte>, lines: seq<seq<byte>>) returns (r: seq<byte>)
    ensures r == out + Flatten(lines)
  {
    r := out;
    var i := 0;
    assert lines[0..] == lines;
    while i < |lines|
      invariant i <= |lines|
      invariant r + Flatten(lines[i..]) == out + Flatten(lines)
    {
      assert lines[i..][1..] == lines[i + 1..];
      assert r + (lines[i] + Flatten(lines[i + 1..])) == r + lines[i] + Flatten(lines[i + 1..]);
      r := r + lines[i];
      i := i + 1;
    }
    assert r + [] == r;
  }

  // msg_put_line
  method MsgPutLine(out: seq<byte>, line: Option<seq<byte>>) returns (r: seq<byte>)
    ensures r == out + Flatten(Maybe(line))
  {
    if line.Some? {
      assert Maybe(line)[1..] == [] && Flatten(Maybe(line)) == line.value + [] == line.value;
      return out + line.value;
    }
    assert out + [] == out;
    return out;
  }

  // msg_put_msgbody: the body of PutMsgs and the zero byte after it.
  method MsgPutMsgBody(out: seq<byte>, b: MsgBody) returns (r: seq<byte>)
    ensures r == out + Flatten(AllLines(b)) + [0]
  {
    hide Flatten;
    ghost var l := Maybe(b.area);
    r := MsgPutLine(out, b.area);
    r := TlFput(r, b.kludge);
    PutMore(out, l, b.kludge);
    l := l + b.kludge;
    r := TlFput(r, b.rfc);
    PutMore(out, l, b.rfc);
    l := l + b.rfc;
    r := TlFput(r, b.body);
    PutMore(out, l, b.body);
    l := l + b.body;
    r := MsgPutLine(r, b.tear);
    PutMore(out, l, Maybe(b.tear));
    l := l + Maybe(b.tear);
    r := MsgPutLine(r, b.origin);
    PutMore(out, l, Maybe(b.origin));
    l := l + Maybe(b.origin);
    r := TlFput(r, b.seenby);
    PutMore(out, l, b.seenby);
    l := l + b.seenby;
    r := TlFput(r, b.path);
    PutMore(out, l, b.path);
    l := l + b.path;
    r := TlFput(r, b.via);
    PutMore(out, l, b.via);
    r := r + [0];
  }

  lemma PutMore(out: seq<byte>, a: seq<seq<byte>>, b: seq<seq<byte>>)
    ensures out + Flatten(a) + Flatten(b) == out + Flatten(a + b)
  {
    FlattenBoth(a, b);
    assert out + (Flatten(a) + Flatten(b)) == out + Flatten(a) + Flatten(b);
  }

  // ---- reading ----

  function TakeWord(s: seq<byte>): (r: (int, seq<byte>))
    ensures |r.1| <= |s| && (s != [] ==> |r.1| < |s|)
  {
    if |s| >= 2 then (WordAt(s, 0), s[2..]) else (-1, [])
  }

  // A string of the file: what the buffer holds afterwards, the bytes read, and the rest. A
  // string that leaves room for nothing but its terminator does not get one.
  function TakeString(s: seq<byte>, size: nat): (r: (Option<seq<byte>>, nat, seq<byte>))
    requires size > 0
    ensures |r.2| <= |s|
  {
    var c := CString(s);
    var n := |c| + (if |c| < |s| then 1 else 0);
    (if |c| == size - 1 then None else Some(if |c| < size then c else c[..size - 1]), n, s[n..])
  }

  function TakeDate(s: seq<byte>): (Option<seq<byte>>, seq<byte>) {
    if |s| >= MSG_MAXDATE then (Some(CString(s[..MSG_MAXDATE])), s[MSG_MAXDATE..]) else (None, [])
  }

  // pkt_get_msg_hdr: None when a field is too long and that is not accepted.
  function GetMsgHdr(s: seq<byte>, strict: bool, from: Node, to: Node): (r: Option<(MsgHdr, seq<byte>)>)
    ensures r.Some? && s != [] ==> |r.value.1| < |s|
  {
    var a := TakeWord(s);
    var b := TakeWord(a.1);
    var c := TakeWord(b.1);
    var d := TakeWord(c.1);
    var e := TakeWord(d.1);
    var f := TakeWord(e.1);
    var date := TakeDate(f.1);
    var x := TakeString(date.1, NAMEBUFSIZE);
    var y := TakeString(x.2, NAMEBUFSIZE);
    var z := TakeString(y.2, NAMEBUFSIZE);
    if strict && (x.1 > MSG_MAXNAME || y.1 > MSG_MAXNAME || z.1 > MSG_MAXSUBJ) then None
    else Some((MsgHdr(from.(node := a.0, net := c.0), to.(node := b.0, net := d.0), e.0, f.0, date.0, x.0, y.0, z.0), z.2))
  }

  function TypeOf(status: Status): int {
    match status case MsgType => 2 case MsgEnd => 0 case Line => 1 case Error => -1
  }

  const CLEAR := Node(0, 0, 0, 0)

  // The loop of do_noarc: the messages read, and the rest of the file after the final word;
  // None when the packet is broken.
  function GetMsgs(s: seq<byte>, kind: int, strict: bool, size: int):
      Option<(seq<(MsgHdr, seq<seq<byte>>)>, seq<byte>)>
    requires size > 3
    decreases |s|
  {
    if kind != 2 || s == [] then Some(([], s))
    else
      var h := GetMsgHdr(s, strict, CLEAR, CLEAR);
      if h.None? then None else
      var b := GetBody(h.value.1, size);
      var rest := h.value.1[b.2..];
      if b.1.Error? then None
      else
        var r := GetMsgs(rest, TypeOf(b.1), strict, size);
        if r.None? then None else Some(([(h.value.0, b.0)] + r.value.0, r.value.1))
  }

  // ---- as the source does it ----

  // pkt_get_string; `closed` tells whether it put a terminator into the buffer.
  method PktGetString(f: InFile, buf: array<byte>) returns (count: nat, closed: bool)
    requires f.Valid() && buf.Length > 0
    modifies f, buf
    ensures f.Valid()
    ensures var r := TakeString(old(f.Rest()), buf.Length);
      && count == r.1 && f.Rest() == r.2 && closed == r.0.Some?
      && (closed ==> |r.0.value| < buf.Length && buf[..|r.0.value|] == r.0.value && buf[|r.0.value|] == 0)
      && (!closed ==> buf[..buf.Length - 1] == CString(old(f.Rest())) && buf[buf.Length - 1] == old(buf[buf.Length - 1]))
  {
    var i, c, n := 0, 0, buf.Length;
    ghost var s := f.Rest();
    ghost var t := CString(s);
    closed := false;
    while true
      invariant f.Valid() && i <= |t| && f.Rest() == s[i..]
      invariant i <= n - 1 ==> buf[..i] == s[..i] && buf[n - 1] == old(buf[n - 1]) && !closed
      invariant i > n - 1 ==> buf[..n - 1] == s[..n - 1] && buf[n - 1] == 0 && closed
      decreases |s| - i
    {
      assert i < |t| ==> s[i] == t[i] && t[i] in t;
      c := f.Getc();
      if c == 0 || c == -1 {
        break;
      }
      assert s[i..][1..] == s[i + 1..];
      if i < n - 1 {
        buf[i] := c;
      } else if i == n - 1 {
        buf[i], closed := 0, true;
      }
      i := i + 1;
    }
    assert i == |t|;
    if i < n - 1 {
      buf[i], closed := 0, true;
    }
    count := i + (if c != -1 then 1 else 0);
  }

  method ReadField(f: InFile) returns (text: Option<seq<byte>>, count: nat)
    requires f.Valid()
    modifies f
    ensures f.Valid() && (text, count, f.Rest()) == TakeString(old(f.Rest()), NAMEBUFSIZE)
  {
    var buf := new byte[NAMEBUFSIZE](_ => 0);
    ghost var t := TakeString(f.Rest(), NAMEBUFSIZE).0;
    var closed;
    count, closed := PktGetString(f, buf);
    if !closed { return None, count; }
    var n := StrLen(buf, |t.value|);
    text := Some(buf[..n]);
  }

  method ReadWord(f: InFile) returns (w: int)
    requires f.Valid()
    modifies f
    ensures f.Valid() && (w, f.Rest()) == TakeWord(old(f.Rest()))
  {
    w := PktGetInt16(f);
    assert f.pos == |f.data| ==> f.Rest() == [];
  }

  // The fixed part of a message header.
  method GetMsgWords(f: InFile, from: Node, to: Node) returns (x: Node, y: Node, attr: int, cost: int)
    requires f.Valid()
    modifies f
    ensures f.Valid()
    ensures var a := TakeWord(old(f.Rest()));
      var b := TakeWord(a.1);
      var c := TakeWord(b.1);
      var d := TakeWord(c.1);
      var e := TakeWord(d.1);
      x == from.(node := a.0, net := c.0) && y == to.(node := b.0, net := d.0) && attr == e.0
      && (cost, f.Rest()) == TakeWord(e.1)
  {
    hide TakeWord;
    x, y := from, to;
    var w := ReadWord(f);
    x := x.(node := w);
    w := ReadWord(f);
    y := y.(node := w);
    w := ReadWord(f);
    x := x.(net := w);
    w := ReadWord(f);
    y := y.(net := w);
    attr := ReadWord(f);
    cost := ReadWord(f);
  }

  method PktGetDate(f: InFile) returns (date: Option<seq<byte>>)
    requires f.Valid()
    modifies f
    ensures f.Valid() && (date, f.Rest()) == TakeDate(old(f.Rest()))
  {
    ghost var s := f.Rest();
    var b := PktGetNBytes(f, MSG_MAXDATE);
    assert f.pos == |f.data| ==> f.Rest() == [];
    if b.None? {
      return None;
    }
    date := Some(CString(b.value));
  }

  method PktGetMsgHdr(f: InFile, strict: bool, from: Node, to: Node) returns (m: Option<MsgHdr>)
    requires f.Valid()
    modifies f
    ensures f.Valid()
    ensures var r := GetMsgHdr(old(f.Rest()), strict, from, to);
      (m.None? <==> r.None?) && (m.Some? ==> r.value == (m.value, f.Rest()))
  {
    hide TakeWord, TakeDate, TakeString;
    var x, y, attr, cost := GetMsgWords(f, from, to);
    var date := PktGetDate(f);
    var nameTo, n := ReadField(f);
    if strict && n > MSG_MAXNAME { return None; }
    var nameFrom, k := ReadField(f);
    if strict && k > MSG_MAXNAME { return None; }
    var subject, l := ReadField(f);
    if strict && l > MSG_MAXSUBJ { return None; }
    return Some(MsgHdr(x, y, attr, cost, date, nameTo, nameFrom, subject));
  }

  // The reading loop of do_noarc after the packet header.
  method ReadMsgs(f: InFile, buf: array<byte>, strict: bool) returns (ms: Option<seq<(MsgHdr, seq<seq<byte>>)>>)
    requires f.Valid() && buf.Length > 3
    modifies f, buf
    ensures f.Valid()
    ensures var t := TakeWord(old(f.Rest()));
      var r := GetMsgs(t.1, t.0, strict, buf.Length);
      (ms.None? <==> r.None?) && (ms.Some? ==> r.value == (ms.value, f.Rest()))
  {
    hide TakeWord, GetMsgHdr, GetBody;
    var kind := ReadWord(f);
    ghost var whole := GetMsgs(f.Rest(), kind, strict, buf.Length);
    var read := [];
    MsgsNothing(whole);
    while kind == 2 && f.pos < |f.data|
      invariant f.Valid()
      invariant whole == MsgsAhead(read, GetMsgs(f.Rest(), kind, strict, buf.Length))
      decreases |f.data| - f.pos
    {
      ghost var s := f.Rest();
      assert s != [];
      var h := PktGetMsgHdr(f, strict, CLEAR, CLEAR);
      if h.None? { return None; }
      ghost var t := f.Rest();
      var lines, status := PktGetBody(f, buf);
      if status.Error? { return None; }
      assert f.Rest() == t[GetBody(t, buf.Length).2..];
      MsgsOne(read, (h.value, lines), GetMsgs(f.Rest(), TypeOf(status), strict, buf.Length));
      read := read + [(h.value, lines)];
      kind := TypeOf(status);
    }
    assert read + [] == read;
    return Some(read);
  }

  function MsgsAhead(read: seq<(MsgHdr, seq<seq<byte>>)>, r: Option<(seq<(MsgHdr, seq<seq<byte>>)>, seq<byte>)>):
      Option<(seq<(MsgHdr, seq<seq<byte>>)>, seq<byte>)> {
    if r.None? then None else Some((read + r.value.0, r.value.1))
  }

  lemma MsgsNothing(r: Option<(seq<(MsgHdr, seq<seq<byte>>)>, seq<byte>)>)
    ensures MsgsAhead([], r) == r
  {
    assert r.Some? ==> [] + r.value.0 == r.value.0;
  }

  lemma MsgsOne(read: seq<(MsgHdr, seq<seq<byte>>)>, m: (MsgHdr, seq<seq<byte>>), r: Option<(seq<(MsgHdr, seq<seq<byte>>)>, seq<byte>)>)
    ensures MsgsAhead(read, MsgsAhead([m], r)) == MsgsAhead(read + [m], r)
  {
    assert r.Some? ==> read + ([m] + r.value.0) == read + [m] + r.value.0;
  }

  // ---- a whole packet read back ----

  // What the fields of a message can hold: a date of 19 characters, no zero bytes.
  predicate MsgFits(m: Message) {
    && PktHeader.IsWord(m.from.node) && PktHeader.IsWord(m.from.net) && PktHeader.IsWord(m.to.node) && PktHeader.IsWord(m.to.net)
    && PktHeader.IsWord(m.attr) && PktHeader.IsWord(m.cost)
    && |m.date| == MSG_MAXDATE - 1 && 0 !in m.date
    && 0 !in m.nameTo && 0 !in m.nameFrom && 0 !in m.subject
    && 0 !in m.body && !Dangling(m.body)
  }

  // The header the reader should find: names and subject cut to what FTS-0001 allows, with a
  // zero byte behind them.
  function Expected(m: Message): MsgHdr {
    MsgHdr(Node(0, m.from.net, m.from.node, 0), Node(0, m.to.net, m.to.node, 0), m.attr, m.cost, Some(m.date),
           Some(FirstBytes(m.nameTo, 35)), Some(FirstBytes(m.nameFrom, 35)), Some(FirstBytes(m.subject, 71)))
  }

  // The string, or its first n bytes when it is longer.
  function FirstBytes(s: seq<byte>, n: nat): seq<byte> {
    if |s| <= n then s else s[..n]
  }

  lemma StringReadBack(s: seq<byte>, rest: seq<byte>)
    requires 0 !in s && |s| < NAMEBUFSIZE - 1
    ensures TakeString(s + [0] + rest, NAMEBUFSIZE) == (Some(s), |s| + 1, rest)
  {
    CStringThen(s, [0] + rest);
    assert s + [0] + rest == s + ([0] + rest);
    assert (s + [0] + rest)[|s| + 1..] == rest;
  }

  lemma WordTaken(v: int, ws: seq<int>, rest: seq<byte>)
    requires PktHeader.IsWord(v)
    ensures TakeWord(Words([v] + ws) + rest) == (v, Words(ws) + rest)
  {
    var s := Words([v] + ws) + rest;
    assert ([v] + ws)[1..] == ws;
    assert s == [] + Words([v] + ws) + rest;
    WordReadBack([], [v] + ws, rest, 0);
    assert s[2..] == Words(ws) + rest;
  }

  lemma DateReadBack(d: seq<byte>, rest: seq<byte>)
    requires |d| == MSG_MAXDATE - 1 && 0 !in d
    ensures TakeDate(d + [0] + rest) == (Some(d), rest)
  {
    CStringThen(d, [0]);
    var s := d + [0] + rest;
    assert s[..MSG_MAXDATE] == d + [0] && s[MSG_MAXDATE..] == rest;
  }

  lemma MsgHdrReadBack(m: Message, strict: bool, rest: seq<byte>)
    requires MsgFits(m)
    ensures GetMsgHdr(PutMsgHdr(m) + rest, strict, CLEAR, CLEAR) == Some((Expected(m), rest))
  {
    hide TakeWord, TakeDate, TakeString, Words, Dangling;
    var to, from, subject := Cut(m.nameTo, MSG_MAXNAME), Cut(m.nameFrom, MSG_MAXNAME), Cut(m.subject, MSG_MAXSUBJ);
    CutKeepsZeros(m.nameTo, MSG_MAXNAME);
    CutKeepsZeros(m.nameFrom, MSG_MAXNAME);
    CutKeepsZeros(m.subject, MSG_MAXSUBJ);
    var r3 := subject + [0] + rest;
    var r2 := from + [0] + r3;
    var r1 := to + [0] + r2;
    var r0 := m.date + [0] + r1;
    var s := PutMsgHdr(m) + rest;
    assert s == Words([m.from.node, m.to.node, m.from.net, m.to.net, m.attr, m.cost]) + r0;
    SixWords(m, r0);
    DateReadBack(m.date, r1);
    StringReadBack(to, r2);
    StringReadBack(from, r3);
    StringReadBack(subject, rest);
  }

  lemma CutKeepsZeros(s: seq<byte>, limit: nat)
    requires limit > 0 && 0 !in s
    ensures 0 !in Cut(s, limit)
  {
    assert forall x :: x in Cut(s, limit) ==> x in s;
  }

  lemma SixWords(m: Message, r: seq<byte>)
    requires MsgFits(m)
    ensures var s := Words([m.from.node, m.to.node, m.from.net, m.to.net, m.attr, m.cost]) + r;
      var a := TakeWord(s);
      var b := TakeWord(a.1);
      var c := TakeWord(b.1);
      var d := TakeWord(c.1);
      var e := TakeWord(d.1);
      a.0 == m.from.node && b.0 == m.to.node && c.0 == m.from.net && d.0 == m.to.net && e.0 == m.attr
      && TakeWord(e.1) == (m.cost, r)
  {
    hide TakeWord, Words, Dangling;
    SixTaken(m.from.node, m.to.node, m.from.net, m.to.net, m.attr, m.cost, r);
  }

  lemma SixTaken(u0: int, u1: int, u2: int, u3: int, u4: int, u5: int, r: seq<byte>)
    requires forall u :: u in [u0, u1, u2, u3, u4, u5] ==> PktHeader.IsWord(u)
    ensures var s := Words([u0, u1, u2, u3, u4, u5]) + r;
      var a := TakeWord(s);
      var b := TakeWord(a.1);
      var c := TakeWord(b.1);
      var d := TakeWord(c.1);
      var e := TakeWord(d.1);
      a.0 == u0 && b.0 == u1 && c.0 == u2 && d.0 == u3 && e.0 == u4 && TakeWord(e.1) == (u5, r)
  {
    hide TakeWord, Words;
    var all := [u0, u1, u2, u3, u4, u5];
    assert u0 in all && u1 in all && u2 in all && u3 in all && u4 in all && u5 in all;
    var w5 := [u5];
    var w4 := [u4] + w5;
    var w3 := [u3] + w4;
    var w2 := [u2] + w3;
    var w1 := [u1] + w2;
    assert all == [u0] + w1;
    WordTaken(u0, w1, r);
    WordTaken(u1, w2, r);
    WordTaken(u2, w3, r);
    WordTaken(u3, w4, r);
    WordTaken(u4, w5, r);
    assert w5 == [u5] + [];
    WordTaken(u5, [], r);
    assert Words([]) == [] by { NoWords(); }
    assert [] + r == r;
  }

  lemma NoWords()
    ensures Words([]) == []
  {
  }

  // A string of any length in the file: 143 bytes of it are kept; with exactly 143 the buffer
  // has no terminator.
  function Held(s: seq<byte>): Option<seq<byte>> {
    if |s| == 143 then None else Some(FirstBytes(s, 143))
  }

  lemma AnyStringRead(s: seq<byte>, rest: seq<byte>)
    requires 0 !in s
    ensures TakeString(s + [0] + rest, NAMEBUFSIZE) == (Held(s), |s| + 1, rest)
  {
    CStringThen(s, [0] + rest);
    assert s + [0] + rest == s + ([0] + rest);
    assert (s + [0] + rest)[|s| + 1..] == rest;
  }

  // Any message header, whoever wrote it: refused, where that is strict, when a name with its zero
  // byte is longer than 36 bytes or the subject than 72.
  lemma AnyHdrRead(w: seq<int>, date: seq<byte>, x: seq<byte>, y: seq<byte>, z: seq<byte>, rest: seq<byte>,
                   strict: bool, from: Node, to: Node)
    requires |w| == 6 && (forall i :: 0 <= i < 6 ==> PktHeader.IsWord(w[i])) && |date| == 20
    requires 0 !in x && 0 !in y && 0 !in z
    ensures GetMsgHdr(Words(w) + date + (x + [0] + (y + [0] + (z + [0] + rest))), strict, from, to) ==
            if strict && (|x| >= 36 || |y| >= 36 || |z| >= 72) then None
            else Some((MsgHdr(Node(from.zone, w[2], w[0], from.point), Node(to.zone, w[3], w[1], to.point), w[4], w[5],
                              Some(CString(date)), Held(x), Held(y), Held(z)), rest))
  {
    hide TakeWord, TakeDate, TakeString, Words, CString;
    var r2 := z + [0] + rest;
    var r1 := y + [0] + r2;
    var r0 := x + [0] + r1;
    assert w == [w[0], w[1], w[2], w[3], w[4], w[5]];
    assert Words(w) + date + r0 == Words(w) + (date + r0);
    SixTaken(w[0], w[1], w[2], w[3], w[4], w[5], date + r0);
    DateTaken(date, r0);
    AnyStringRead(x, r1);
    AnyStringRead(y, r2);
    AnyStringRead(z, rest);
  }

  lemma DateTaken(date: seq<byte>, rest: seq<byte>)
    requires |date| == 20
    ensures TakeDate(date + rest) == (Some(CString(date)), rest)
  {
    assert (date + rest)[..20] == date && (date + rest)[20..] == rest;
  }

  lemma CutIs(s: seq<byte>, limit: nat)
    requires limit > 0
    ensures Cut(s, limit) == FirstBytes(s, limit - 1)
  {
  }

  // The bytes of a packed message's header where FTS-0001 has them.
  lemma MsgHdrBytes(m: Message)
    requires MsgFits(m)
    ensures var s := PutMsgHdr(m);
      && |s| > 32 && HasWord(s, 0, m.from.node) && HasWord(s, 2, m.to.node) && HasWord(s, 4, m.from.net)
      && HasWord(s, 6, m.to.net) && HasWord(s, 8, m.attr) && HasWord(s, 10, m.cost)
      && s[12..] == m.date + [0] + FirstBytes(m.nameTo, 35) + [0] + FirstBytes(m.nameFrom, 35) + [0]
                    + FirstBytes(m.subject, 71) + [0]
  {
    hide Words, Dangling, FirstBytes, Cut;
    CutIs(m.nameTo, 36);
    CutIs(m.nameFrom, 36);
    CutIs(m.subject, 72);
    var ws, s := [m.from.node, m.to.node, m.from.net, m.to.net, m.attr, m.cost], PutMsgHdr(m);
    var post := s[12..];
    assert s == [] + Words(ws) + post;
    forall k | 0 <= k < 6 ensures HasWord(s, 2 * k, ws[k] % 0x1_0000) {
      WordReadBack([], ws, post, k);
    }
    assert HasWord(s, 2 * 0, ws[0]) && HasWord(s, 2 * 1, ws[1]) && HasWord(s, 2 * 2, ws[2]);
    assert HasWord(s, 2 * 3, ws[3]) && HasWord(s, 2 * 4, ws[4]) && HasWord(s, 2 * 5, ws[5]);
  }

  predicate SameMessages(ms: seq<Message>, r: seq<(MsgHdr, seq<seq<byte>>)>) {
    |r| == |ms| && forall i :: 0 <= i < |ms| ==> r[i].0 == Expected(ms[i]) && LinesOf(ms[i].body, r[i].1)
  }

  lemma {:induction false} MsgsReadBack(ms: seq<Message>, rest: seq<byte>, strict: bool, size: int)
    requires size > 3 && forall i :: 0 <= i < |ms| ==> MsgFits(ms[i])
    ensures var t := TakeWord(PutMsgs(ms) + rest);
      var r := GetMsgs(t.1, t.0, strict, size);
      r.Some? && SameMessages(ms, r.value.0) && r.value.1 == rest
  {
    hide GetMsgHdr, PutMsgHdr, GetBody, Dangling, EndsInCr, Expected, LinesOf, TakeWord, Int16;
    var s := PutMsgs(ms) + rest;
    if ms == [] {
      TypeWord(0, rest);
    } else {
      var m, next := ms[0], PutMsgs(ms[1..]) + rest;
      var after := PutMsgHdr(m) + (m.body + [0] + next);
      assert s == Int16(2) + after;
      TypeWord(2, after);
      MsgHdrReadBack(m, strict, m.body + [0] + next);
      NextType(ms[1..], rest);
      var t := next[..2];
      BodyThenNext(m.body, next);
      assert 0 !in m.body && !Dangling(m.body) by { BodyFits(m); }
      BodyReadBack(m.body, t, next[2..], size);
      var b := GetBody(m.body + [0] + next, size);
      TypeWord(if t == [0, 0] then 0 else 2, next[2..]);
      MsgsReadBack(ms[1..], rest, strict, size);
      var r := GetMsgs(next[2..], TypeOf(b.1), strict, size);
      assert after != [] by { HdrNotEmpty(m); }
      assert GetMsgs(after, 2, strict, size) == Some(([(Expected(m), b.0)] + r.value.0, rest));
    }
  }

  lemma BodyThenNext(body: seq<byte>, next: seq<byte>)
    requires |next| >= 2
    ensures body + [0] + next == body + ([0] + next[..2] + next[2..])
    ensures (body + [0] + next)[|body| + 3..] == next[2..] && next == next[..2] + next[2..]
  {
  }

  lemma HdrNotEmpty(m: Message)
    ensures PutMsgHdr(m) != []
  {
  }

  lemma BodyFits(m: Message)
    requires MsgFits(m)
    ensures 0 !in m.body && !Dangling(m.body)
  {
    hide Dangling;
  }

  lemma TypeWord(v: int, rest: seq<byte>)
    requires PktHeader.IsWord(v)
    ensures TakeWord(Int16(v) + rest) == (v, rest)
  {
    NoWords();
    assert [v][1..] == [] && Words([v]) == Int16(v) + [] == Int16(v);
    WordTaken(v, [], rest);
    assert [v] + [] == [v] && [] + rest == rest;
  }

  lemma NextType(ms: seq<Message>, rest: seq<byte>)
    ensures var s := PutMsgs(ms) + rest;
      |s| >= 2 && IsNext(s[..2]) && s[..2] == Int16(if s[..2] == [0, 0] then 0 else 2)
  {
  }

  // A whole packet: the header as it was, every message with its addresses and names cut to
  // size and its body, and the reader right after the final zero word.
  lemma PacketReadBack(h: Header, psd: seq<byte>, ms: seq<Message>, rest: seq<byte>, strict: bool, size: int, defZone: int, today: int)
    requires Fits(h) && Survives(h, defZone) && |psd| == 4 && today != 0 && size > 3
    requires forall i :: 0 <= i < |ms| ==> MsgFits(ms[i])
    ensures var s := PutHdr(h, h.time.value, psd) + (PutMsgs(ms) + rest);
      var t := TakeWord(s[HEADER..]);
      var r := GetMsgs(t.1, t.0, strict, size);
      GetHdr(s, defZone, today) == (true, h) && r.Some? && SameMessages(ms, r.value.0) && r.value.1 == rest
  {
    hide GetMsgs, PutMsgs, GetHdr, PutHdr, TakeWord, SameMessages, Survives, MsgFits;
    var body := PutMsgs(ms) + rest;
    HdrReadBack(h, psd, body, defZone, today);
    MsgsReadBack(ms, rest, strict, size);
    assert (PutHdr(h, h.time.value, psd) + body)[HEADER..] == body;
  }
}
