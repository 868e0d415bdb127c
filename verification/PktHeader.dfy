// The 58 bytes of a packet header, written as type 2+ and read back.
module PktHeader {
  import opened Common
  import opened PktBody

  const PKT_VERSION := 2
  const PKT_MAXPASSWD := 8
  const HEADER := 58

  // pkt_put_int16: low byte first
  function Int16(v: int): (s: seq<byte>)
    ensures |s| == 2
  {
    [v % 256, (v / 256) % 256]
  }

  function Words(ws: seq<int>): (s: seq<byte>)
    ensures |s| == 2 * |ws|
  {
    if ws == [] then [] else Int16(ws[0]) + Words(ws[1..])
  }

  // The word read at position i.
  function WordAt(s: seq<byte>, i: nat): (w: int)
    requires i + 2 <= |s|
    ensures 0 <= w < 0x1_0000
  {
    (s[i] as int) + 256 * (s[i + 1] as int)
  }

  lemma {:induction false} WordReadBack(pre: seq<byte>, ws: seq<int>, post: seq<byte>, k: nat)
    requires k < |ws|
    ensures WordAt(pre + Words(ws) + post, |pre| + 2 * k) == ws[k] % 0x1_0000
    decreases k
  {
    var s := pre + Words(ws) + post;
    if k == 0 {
      var v := ws[0];
      assert Words(ws)[0] == v % 256 && Words(ws)[1] == (v / 256) % 256;
      assert s[|pre|] == Words(ws)[0] && s[|pre| + 1] == Words(ws)[1];
    } else {
      assert s == (pre + Int16(ws[0])) + Words(ws[1..]) + post;
      WordReadBack(pre + Int16(ws[0]), ws[1..], post, k - 1);
    }
  }

  // A C string in a field: its bytes up to the first zero.
  function CString(s: seq<byte>): (r: seq<byte>)
    ensures |r| <= |s| && r == s[..|r|] && 0 !in r && (|r| < |s| ==> s[|r|] == 0)
  {
    if s == [] || s[0] == 0 then [] else [s[0]] + CString(s[1..])
  }

  // Broken-down local time.
  datatype Tm = Tm(year: int, mon: int, mday: int, hour: int, min: int, sec: int)

  datatype Header = Header(from: Node, to: Node, time: Option<Tm>, baud: int, version: int,
    productL: int, productH: int, revMin: int, revMaj: int, passwd: seq<byte>, capword: int)

  // The byte-swapped copy of the capability word.
  function Swapped(c: int): int {
    256 * (c % 256) + (c / 256) % 256
  }

  // pkt_put_string_padded
  function Padded(s: seq<byte>, n: nat): (r: seq<byte>)
    ensures |r| == n
  {
    var k := if |CString(s)| < n then |CString(s)| else n;
    s[..k] + seq(n - k, i => 0)
  }

  function TimeWords(t: Tm): seq<int> { [t.year, t.mon, t.mday, t.hour, t.min, t.sec] }

  function FirstWords(h: Header, t: Tm): seq<int> {
    [h.from.node, h.to.node, t.year, t.mon, t.mday, t.hour, t.min, t.sec, h.baud, h.version, h.from.net, h.to.net]
  }

  function MiddleWords(h: Header): seq<int> { [h.from.zone, h.to.zone, 0, Swapped(h.capword)] }

  function LastWords(h: Header): seq<int> { [h.capword, h.from.zone, h.to.zone, h.from.point, h.to.point] }

  // pkt_put_hdr_raw; putc writes the low byte
  function PutHdr(h: Header, t: Tm, psd: seq<byte>): (s: seq<byte>)
    requires |psd| == 4
    ensures |s| == HEADER
  {
    Words(FirstWords(h, t)) + [h.productL % 256, h.revMaj % 256] + Padded(h.passwd, PKT_MAXPASSWD)
    + Words(MiddleWords(h)) + [h.productH % 256, h.revMin % 256] + Words(LastWords(h)) + psd
  }

  predicate ValidTm(t: Tm) {
    1900 <= t.year <= 2099 && t.mon <= 11 && t.mday <= 31 && t.hour <= 23 && t.min <= 59 && t.sec <= 59
  }

  function Zone(cap: int, fts: int, fsc: int, defZone: int): int {
    if cap != 0 && fsc != 0 then fsc else if fts != 0 then fts else defZone
  }

  // pkt_get_hdr on a whole header; `today` stands for a day of 0. The flag is false when the
  // header was read but is not accepted.
  function GetHdr(s: seq<byte>, defZone: int, today: int): (bool, Header)
    requires |s| >= HEADER
  {
    var mday := WordAt(s, 8);
    var ok := ValidTm(Tm(WordAt(s, 4), WordAt(s, 6), mday, WordAt(s, 10), WordAt(s, 12), WordAt(s, 14)));
    var t := Tm(WordAt(s, 4), WordAt(s, 6), if mday == 0 then today else mday,
                WordAt(s, 10), WordAt(s, 12), WordAt(s, 14));
    var cw := if WordAt(s, 44) == 256 * (s[40] as int) + (s[41] as int) then WordAt(s, 44) else 0;
    var from := Node(Zone(cw, WordAt(s, 34), WordAt(s, 46), defZone), WordAt(s, 20), WordAt(s, 0),
                     if cw != 0 then WordAt(s, 50) else 0);
    var to := Node(Zone(cw, WordAt(s, 36), WordAt(s, 48), defZone), WordAt(s, 22), WordAt(s, 2),
                   if cw != 0 then WordAt(s, 52) else 0);
    var net := if from.net != 0xFFFF then from.net else if from.point != 0 then WordAt(s, 38) else to.net;
    (ok && WordAt(s, 18) == PKT_VERSION,
     Header(from.(net := net), to, if ok then Some(t) else None, WordAt(s, 16), WordAt(s, 18), s[24], s[42], s[43], s[25],
            CString(s[26..34]), cw))
  }

  // What the fields of a header can hold.
  predicate Fits(h: Header) {
    && IsAddress(h.from) && IsAddress(h.to)
    && IsWord(h.baud) && IsWord(h.version) && IsWord(h.capword)
    && 0 <= h.productL < 256 && 0 <= h.productH < 256 && 0 <= h.revMin < 256 && 0 <= h.revMaj < 256
    && |h.passwd| <= PKT_MAXPASSWD && 0 !in h.passwd
    && h.time.Some? && (forall w :: w in TimeWords(h.time.value) ==> IsWord(w))
  }

  predicate IsWord(w: int) { 0 <= w < 0x1_0000 }

  predicate IsAddress(n: Node) {
    IsWord(n.zone) && IsWord(n.net) && IsWord(n.node) && IsWord(n.point)
  }

  // Years 1900 to 2099; months count from 0, a day of 0 does not come back.
  predicate Dated(t: Tm) {
    && 1900 <= t.year && t.year < 2100 && t.mon < 12 && 0 < t.mday && t.mday < 32
    && t.hour < 24 && t.min < 60 && t.sec < 60
  }

  // When a header that fits comes back as it was.
  predicate Survives(h: Header, defZone: int)
    requires h.time.Some?
  {
    && Dated(h.time.value) && h.version == 2
    && (h.from.zone != 0 || defZone == 0) && (h.to.zone != 0 || defZone == 0)
    && (h.capword != 0 || (h.from.point == 0 && h.to.point == 0))
    && (h.from.net != 0xFFFF || (h.from.point == 0 && h.to.net == 0xFFFF))
  }

  lemma {:induction false} CStringThen(s: seq<byte>, post: seq<byte>)
    requires 0 !in s && (post == [] || post[0] == 0)
    ensures CString(s + post) == s
  {
    if s == [] {
      assert s + post == post;
    } else {
      assert (s + post)[1..] == s[1..] + post;
      assert s[0] in s && forall x :: x in s[1..] ==> x in s;
      CStringThen(s[1..], post);
    }
  }

  lemma PasswordReadBack(p: seq<byte>)
    requires 0 !in p && |p| <= PKT_MAXPASSWD
    ensures CString(Padded(p, PKT_MAXPASSWD)) == p
  {
    CStringThen(p, []);
    assert p + [] == p && p[..|p|] == p;
    CStringThen(p, seq(PKT_MAXPASSWD - |p|, i => 0));
  }

  // The places of the parts of a written header.
  lemma Layout(h: Header, t: Tm, psd: seq<byte>, rest: seq<byte>)
    requires |psd| == 4
    ensures var s := PutHdr(h, t, psd) + rest;
      && (forall k :: 0 <= k < 12 ==> WordAt(s, 2 * k) == FirstWords(h, t)[k] % 0x1_0000)
      && s[24] == h.productL % 256 && s[25] == h.revMaj % 256
      && s[26..34] == Padded(h.passwd, PKT_MAXPASSWD)
      && (forall k :: 0 <= k < 4 ==> WordAt(s, 34 + 2 * k) == MiddleWords(h)[k] % 0x1_0000)
      && s[42] == h.productH % 256 && s[43] == h.revMin % 256
      && (forall k :: 0 <= k < 5 ==> WordAt(s, 44 + 2 * k) == LastWords(h)[k] % 0x1_0000)
  {
    hide Words, Int16, WordAt, Padded, FirstWords, MiddleWords, LastWords;
    var s := PutHdr(h, t, psd) + rest;
    var a, b, c := Words(FirstWords(h, t)), Words(MiddleWords(h)), Words(LastWords(h));
    var v1, pw, v2 := [h.productL % 256, h.revMaj % 256], Padded(h.passwd, PKT_MAXPASSWD), [h.productH % 256, h.revMin % 256];
    Lengths(h, t);
    var r1 := v1 + pw + b + v2 + c + psd + rest;
    assert s == [] + a + r1;
    forall k | 0 <= k < 12 ensures WordAt(s, 2 * k) == FirstWords(h, t)[k] % 0x1_0000 {
      WordReadBack([], FirstWords(h, t), r1, k);
    }
    var p2, r2 := a + v1 + pw, v2 + c + psd + rest;
    assert s == p2 + b + r2;
    forall k | 0 <= k < 4 ensures WordAt(s, 34 + 2 * k) == MiddleWords(h)[k] % 0x1_0000 {
      WordReadBack(p2, MiddleWords(h), r2, k);
    }
    var p3 := p2 + b + v2;
    assert s == p3 + c + (psd + rest);
    forall k | 0 <= k < 5 ensures WordAt(s, 44 + 2 * k) == LastWords(h)[k] % 0x1_0000 {
      WordReadBack(p3, LastWords(h), psd + rest, k);
    }
    assert s[24] == v1[0] && s[25] == v1[1];
    assert s[42] == v2[0] && s[43] == v2[1];
  }

  lemma Lengths(h: Header, t: Tm)
    ensures |FirstWords(h, t)| == 12 && |MiddleWords(h)| == 4 && |LastWords(h)| == 5
  {
  }

  // A header that fits is accepted and comes back as it was exactly when it survives.
  lemma HdrReadBack(h: Header, psd: seq<byte>, rest: seq<byte>, defZone: int, today: int)
    requires Fits(h) && |psd| == 4 && today != 0
    ensures GetHdr(PutHdr(h, h.time.value, psd) + rest, defZone, today) == (true, h) <==> Survives(h, defZone)
  {
    hide PutHdr, Padded, Words;
    var t := h.time.value;
    var s := PutHdr(h, t, psd) + rest;
    Layout(h, t, psd, rest);
    PasswordReadBack(h.passwd);
    FirstRead(h, t, s);
    OtherRead(h, s);
  }

  lemma FirstRead(h: Header, t: Tm, s: seq<byte>)
    requires Fits(h) && h.time == Some(t) && |s| >= HEADER
    requires forall k :: 0 <= k < 12 ==> WordAt(s, 2 * k) == FirstWords(h, t)[k] % 0x1_0000
    ensures WordAt(s, 0) == h.from.node && WordAt(s, 2) == h.to.node && WordAt(s, 20) == h.from.net && WordAt(s, 22) == h.to.net
    ensures WordAt(s, 16) == h.baud && WordAt(s, 18) == h.version
    ensures Tm(WordAt(s, 4), WordAt(s, 6), WordAt(s, 8), WordAt(s, 10), WordAt(s, 12), WordAt(s, 14)) == t
  {
    hide WordAt;
    var w := FirstWords(h, t);
    assert WordAt(s, 2 * 0) == w[0] && WordAt(s, 2 * 1) == w[1] && WordAt(s, 2 * 8) == w[8] && WordAt(s, 2 * 9) == w[9];
    assert WordAt(s, 2 * 10) == w[10] && WordAt(s, 2 * 11) == w[11];
    var ts := TimeWords(t);
    assert ts[0] in ts && ts[1] in ts && ts[2] in ts && ts[3] in ts && ts[4] in ts && ts[5] in ts;
    assert WordAt(s, 2 * 2) == w[2] && WordAt(s, 2 * 3) == w[3] && WordAt(s, 2 * 4) == w[4];
    assert WordAt(s, 2 * 5) == w[5] && WordAt(s, 2 * 6) == w[6] && WordAt(s, 2 * 7) == w[7];
  }

  lemma SwappedTwice(c: int, a: int, b: int)
    requires IsWord(c) && 0 <= a < 256 && 0 <= b < 256
    requires a + 256 * b == Swapped(c) % 0x1_0000
    ensures 256 * a + b == c
  {
    assert 0 <= c / 256 < 256 && 0 <= Swapped(c) < 0x1_0000;
  }

  lemma SwapRead(c: int, s: seq<byte>)
    requires IsWord(c) && |s| >= HEADER && WordAt(s, 40) == Swapped(c) % 0x1_0000
    ensures 256 * (s[40] as int) + (s[41] as int) == c
  {
    hide Swapped;
    SwappedTwice(c, s[40] as int, s[41] as int);
  }

  lemma OtherRead(h: Header, s: seq<byte>)
    requires Fits(h) && |s| >= HEADER
    requires forall k :: 0 <= k < 4 ==> WordAt(s, 34 + 2 * k) == MiddleWords(h)[k] % 0x1_0000
    requires forall k :: 0 <= k < 5 ==> WordAt(s, 44 + 2 * k) == LastWords(h)[k] % 0x1_0000
    ensures WordAt(s, 34) == WordAt(s, 46) == h.from.zone && WordAt(s, 36) == WordAt(s, 48) == h.to.zone
    ensures WordAt(s, 38) == 0 && 256 * (s[40] as int) + (s[41] as int) == WordAt(s, 44) == h.capword
    ensures WordAt(s, 50) == h.from.point && WordAt(s, 52) == h.to.point
  {
    hide WordAt, Swapped;
    var m, l := MiddleWords(h), LastWords(h);
    assert WordAt(s, 34 + 2 * 0) == m[0] && WordAt(s, 34 + 2 * 1) == m[1] && WordAt(s, 34 + 2 * 2) == m[2];
    assert WordAt(s, 44 + 2 * 0) == l[0] && WordAt(s, 44 + 2 * 1) == l[1] && WordAt(s, 44 + 2 * 2) == l[2];
    assert WordAt(s, 44 + 2 * 3) == l[3] && WordAt(s, 44 + 2 * 4) == l[4];
    assert WordAt(s, 34 + 2 * 3) == m[3] % 0x1_0000;
    SwapRead(h.capword, s);
  }

  // pkt_fill_hdr: what pkt_put_hdr writes over the caller's header.
  function Filled(h: Header, product: int, minor: int, major: int): Header {
    h.(baud := 0, version := PKT_VERSION, productL := product, productH := 0, revMin := minor, revMaj := major, capword := 1)
  }

  // Written by pkt_put_hdr, a header between addresses with a zone comes back with its points
  // and passwords, and as one of type 2+, however it was filled in.
  lemma FilledSurvives(h: Header, product: int, minor: int, major: int, psd: seq<byte>, rest: seq<byte>,
                       defZone: int, today: int)
    requires Fits(h) && Dated(h.time.value) && |psd| == 4 && today != 0
    requires 0 <= product < 256 && 0 <= minor < 256 && 0 <= major < 256
    requires h.from.zone != 0 && h.to.zone != 0 && h.from.net != 0xFFFF
    ensures GetHdr(PutHdr(Filled(h, product, minor, major), h.time.value, psd) + rest, defZone, today)
         == (true, Header(h.from, h.to, h.time, 0, 2, product, 0, minor, major, h.passwd, 1))
  {
    hide GetHdr, PutHdr;
    HdrReadBack(Filled(h, product, minor, major), psd, rest, defZone, today);
  }

  // Two bytes at position i of s, low byte first, are w.
  predicate HasWord(s: seq<byte>, i: nat, w: int)
    requires i + 2 <= |s|
  {
    s[i] as int + 256 * (s[i + 1] as int) == w
  }

  // The bytes of a header where FTS-0001 and FSC-0039 have them.
  lemma HdrBytes(h: Header, psd: seq<byte>)
    requires Fits(h) && |psd| == 4
    ensures var s := PutHdr(h, h.time.value, psd);
      && HasWord(s, 0, h.from.node) && HasWord(s, 2, h.to.node)
      && HasWord(s, 4, h.time.value.year) && HasWord(s, 6, h.time.value.mon) && HasWord(s, 8, h.time.value.mday)
      && HasWord(s, 10, h.time.value.hour) && HasWord(s, 12, h.time.value.min) && HasWord(s, 14, h.time.value.sec)
      && HasWord(s, 16, h.baud) && HasWord(s, 18, h.version) && HasWord(s, 20, h.from.net) && HasWord(s, 22, h.to.net)
      && s[24] == h.productL && s[25] == h.revMaj
      && s[26..26 + |h.passwd|] == h.passwd && (forall i :: 26 + |h.passwd| <= i < 34 ==> s[i] == 0)
      && HasWord(s, 34, h.from.zone) && HasWord(s, 36, h.to.zone) && HasWord(s, 38, 0)
      && 256 * (s[40] as int) + (s[41] as int) == h.capword
      && s[42] == h.productH && s[43] == h.revMin && HasWord(s, 44, h.capword)
      && HasWord(s, 46, h.from.zone) && HasWord(s, 48, h.to.zone)
      && HasWord(s, 50, h.from.point) && HasWord(s, 52, h.to.point) && s[54..58] == psd
  {
    hide PutHdr, Words, Padded;
    var t := h.time.value;
    var s := PutHdr(h, t, psd);
    assert s + [] == s;
    Layout(h, t, psd, []);
    FirstRead(h, t, s);
    OtherRead(h, s);
    PasswordBytes(h.passwd);
    var p := Padded(h.passwd, PKT_MAXPASSWD);
    assert s[26..26 + |h.passwd|] == s[26..34][..|h.passwd|] == p[..|h.passwd|];
    forall i | 26 + |h.passwd| <= i < 34 ensures s[i] == 0 {
      assert s[i] == s[26..34][i - 26] == p[i - 26];
    }
    LastBytes(h, t, psd);
  }

  lemma PasswordBytes(p: seq<byte>)
    requires 0 !in p && |p| <= PKT_MAXPASSWD
    ensures Padded(p, PKT_MAXPASSWD)[..|p|] == p
    ensures forall i :: |p| <= i < PKT_MAXPASSWD ==> Padded(p, PKT_MAXPASSWD)[i] == 0
  {
    CStringThen(p, []);
    assert p + [] == p;
  }

  lemma LastBytes(h: Header, t: Tm, psd: seq<byte>)
    requires |psd| == 4
    ensures PutHdr(h, t, psd)[54..58] == psd
  {
  }

  // ---- as the source does it ----

  // pkt_get_int16: -1 at the end of the file
  method PktGetInt16(f: InFile) returns (w: int)
    requires f.Valid()
    modifies f
    ensures f.Valid() && f.pos >= old(f.pos)
    ensures |old(f.Rest())| >= 2 ==> w == WordAt(old(f.Rest()), 0) && f.pos == old(f.pos) + 2
    ensures |old(f.Rest())| < 2 ==> w == -1 && f.pos == |f.data|
  {
    var c := f.Getc();
    if c == -1 { return -1; }
    var d := f.Getc();
    if d == -1 { return -1; }
    return c + 256 * d;
  }

  // pkt_get_nbytes; None at the end of the file
  method PktGetNBytes(f: InFile, n: nat) returns (b: Option<seq<byte>>)
    requires f.Valid()
    modifies f
    ensures f.Valid()
    ensures |old(f.Rest())| >= n ==> b == Some(old(f.Rest())[..n]) && f.pos == old(f.pos) + n
    ensures |old(f.Rest())| < n ==> b == None && f.pos == |f.data|
  {
    var r, i := [], 0;
    ghost var s := f.Rest();
    while i < n
      invariant f.Valid() && f.pos == old(f.pos) + i && i <= n && i <= |s|
      invariant r == s[..i]
    {
      assert f.Rest() == s[i..];
      var c := f.Getc();
      if c == -1 { return None; }
      r := r + [c];
      i := i + 1;
    }
    return Some(r);
  }

  // A word at position k of the bytes s, k being where the file stands.
  method WordFrom(f: InFile, ghost s: seq<byte>, ghost k: nat) returns (w: int)
    requires f.Valid() && k <= |s| && f.Rest() == s[k..]
    modifies f
    ensures f.Valid() && (w == -1 <==> |s| < k + 2)
    ensures |s| >= k + 2 ==> w == WordAt(s, k) && f.Rest() == s[k + 2..] && f.pos == old(f.pos) + 2
  {
    w := PktGetInt16(f);
  }

  method ByteFrom(f: InFile, ghost s: seq<byte>, ghost k: nat) returns (c: int)
    requires f.Valid() && k <= |s| && f.Rest() == s[k..]
    modifies f
    ensures f.Valid() && (c == -1 <==> |s| < k + 1)
    ensures |s| >= k + 1 ==> c == s[k] as int && f.Rest() == s[k + 1..] && f.pos == old(f.pos) + 1
  {
    c := f.Getc();
  }

  // The parts of a header in the order they are read.
  datatype Front = Front(fromNode: int, toNode: int, time: Tm, baud: int, version: int, fromNet: int, toNet: int)

  datatype Back = Back(fromZone: int, toZone: int, auxNet: int, swap: int, productH: int, revMin: int, cap: int,
    fromZone39: int, toZone39: int, fromPoint: int, toPoint: int)

  function TimeAt(s: seq<byte>): Tm
    requires |s| >= 16
  {
    Tm(WordAt(s, 4), WordAt(s, 6), WordAt(s, 8), WordAt(s, 10), WordAt(s, 12), WordAt(s, 14))
  }

  method GetTime(f: InFile, ghost s: seq<byte>) returns (r: Option<Tm>)
    requires f.Valid() && |s| >= 4 && f.Rest() == s[4..]
    modifies f
    ensures f.Valid() && (r.None? <==> |s| < 16)
    ensures r.Some? ==> r.value == TimeAt(s) && f.Rest() == s[16..] && f.pos == old(f.pos) + 12
  {
    hide WordAt;
    var year := WordFrom(f, s, 4);
    if year == -1 { return None; }
    var mon := WordFrom(f, s, 6);
    if mon == -1 { return None; }
    var mday := WordFrom(f, s, 8);
    if mday == -1 { return None; }
    var hour := WordFrom(f, s, 10);
    if hour == -1 { return None; }
    var min := WordFrom(f, s, 12);
    if min == -1 { return None; }
    var sec := WordFrom(f, s, 14);
    if sec == -1 { return None; }
    return Some(Tm(year, mon, mday, hour, min, sec));
  }

  method GetFront(f: InFile) returns (r: Option<Front>)
    requires f.Valid()
    modifies f
    ensures f.Valid() && (r.None? <==> |old(f.Rest())| < 24)
    ensures r.Some? ==> f.pos == old(f.pos) + 24
    ensures r.Some? ==> var s := old(f.Rest());
      r.value == Front(WordAt(s, 0), WordAt(s, 2), TimeAt(s), WordAt(s, 16), WordAt(s, 18), WordAt(s, 20), WordAt(s, 22))
  {
    hide WordAt, TimeAt;
    ghost var s := f.Rest();
    var fromNode := WordFrom(f, s, 0);
    if fromNode == -1 { return None; }
    var toNode := WordFrom(f, s, 2);
    if toNode == -1 { return None; }
    var time := GetTime(f, s);
    if time.None? { return None; }
    var baud := WordFrom(f, s, 16);
    if baud == -1 { return None; }
    var version := WordFrom(f, s, 18);
    if version == -1 { return None; }
    var fromNet := WordFrom(f, s, 20);
    if fromNet == -1 { return None; }
    var toNet := WordFrom(f, s, 22);
    if toNet == -1 { return None; }
    return Some(Front(fromNode, toNode, time.value, baud, version, fromNet, toNet));
  }

  // The zones and points of FSC-0039.
  method GetFsc39(f: InFile, ghost s: seq<byte>) returns (r: Option<(int, int, int, int)>)
    requires f.Valid() && |s| >= 46 && f.Rest() == s[46..]
    modifies f
    ensures f.Valid() && (r.None? <==> |s| < 54)
    ensures r.Some? ==> r.value == (WordAt(s, 46), WordAt(s, 48), WordAt(s, 50), WordAt(s, 52))
    ensures r.Some? ==> f.Rest() == s[54..] && f.pos == old(f.pos) + 8
  {
    hide WordAt;
    var fromZone := WordFrom(f, s, 46);
    if fromZone == -1 { return None; }
    var toZone := WordFrom(f, s, 48);
    if toZone == -1 { return None; }
    var fromPoint := WordFrom(f, s, 50);
    if fromPoint == -1 { return None; }
    var toPoint := WordFrom(f, s, 52);
    if toPoint == -1 { return None; }
    return Some((fromZone, toZone, fromPoint, toPoint));
  }

  method GetBack(f: InFile, ghost s: seq<byte>) returns (r: Option<Back>)
    requires f.Valid() && |s| >= 34 && f.Rest() == s[34..]
    modifies f
    ensures f.Valid() && (r.None? <==> |s| < 54)
    ensures r.Some? ==> f.Rest() == s[54..] && f.pos == old(f.pos) + 20
    ensures r.Some? ==> r.value == Back(WordAt(s, 34), WordAt(s, 36), WordAt(s, 38), 256 * (s[40] as int) + (s[41] as int),
      s[42] as int, s[43] as int, WordAt(s, 44), WordAt(s, 46), WordAt(s, 48), WordAt(s, 50), WordAt(s, 52))
  {
    hide WordAt;
    var ozone := WordFrom(f, s, 34);
    if ozone == -1 { return None; }
    var dzone := WordFrom(f, s, 36);
    if dzone == -1 { return None; }
    var auxNet := WordFrom(f, s, 38);
    if auxNet == -1 { return None; }
    var high := ByteFrom(f, s, 40);
    if high == -1 { return None; }
    var low := ByteFrom(f, s, 41);
    if low == -1 { return None; }
    var productH := ByteFrom(f, s, 42);
    if productH == -1 { return None; }
    var revMin := ByteFrom(f, s, 43);
    if revMin == -1 { return None; }
    var cw := WordFrom(f, s, 44);
    if cw == -1 { return None; }
    var fsc := GetFsc39(f, s);
    if fsc.None? { return None; }
    var (fz, tz, fp, tp) := fsc.value;
    return Some(Back(ozone, dzone, auxNet, 256 * high + low, productH, revMin, cw, fz, tz, fp, tp));
  }

  // The origin and destination, from the words of all three standards.
  method Resolve(p: Front, b: Back, defZone: int) returns (from: Node, to: Node, cw: int)
    ensures cw == if b.cap == b.swap then b.cap else 0
    ensures to == Node(Zone(cw, b.toZone, b.toZone39, defZone), p.toNet, p.toNode, if cw != 0 then b.toPoint else 0)
    ensures from.zone == Zone(cw, b.fromZone, b.fromZone39, defZone) && from.node == p.fromNode
    ensures from.point == if cw != 0 then b.fromPoint else 0
    ensures from.net == if p.fromNet != 0xFFFF then p.fromNet else if from.point != 0 then b.auxNet else p.toNet
  {
    from, to := Node(defZone, p.fromNet, p.fromNode, 0), Node(defZone, p.toNet, p.toNode, 0);
    if b.fromZone != 0 { from := from.(zone := b.fromZone); }
    if b.toZone != 0 { to := to.(zone := b.toZone); }
    cw := if b.cap != 0 && b.cap == b.swap then b.cap else 0;
    if cw != 0 && b.fromZone39 != 0 { from := from.(zone := b.fromZone39); }
    if cw != 0 && b.toZone39 != 0 { to := to.(zone := b.toZone39); }
    if cw != 0 { from := from.(point := b.fromPoint); }
    if cw != 0 { to := to.(point := b.toPoint); }
    if from.net == 0xFFFF {
      from := from.(net := if from.point != 0 then b.auxNet else to.net);
    }
  }

  // pkt_get_hdr; None when the file ends before the header does.
  method PktGetHdr(f: InFile, defZone: int, today: int) returns (r: Option<(bool, Header)>)
    requires f.Valid()
    modifies f
    ensures f.Valid() && (r.None? <==> |old(f.Rest())| < HEADER)
    ensures r.Some? ==> r.value == GetHdr(old(f.Rest()), defZone, today) && f.pos == old(f.pos) + HEADER
  {
    hide WordAt, CString, Zone, ValidTm;
    ghost var s := f.Rest();
    var front := GetFront(f);
    if front.None? { return None; }
    var productL := ByteFrom(f, s, 24);
    if productL == -1 { return None; }
    var revMaj := ByteFrom(f, s, 25);
    if revMaj == -1 { return None; }
    var passwd := PktGetNBytes(f, PKT_MAXPASSWD);
    if passwd.None? { return None; }
    assert s[26..][..PKT_MAXPASSWD] == s[26..34];
    var back := GetBack(f, s);
    if back.None? { return None; }
    var psd := PktGetNBytes(f, 4);
    if psd.None? { return None; }
    var p, b := front.value, back.value;
    var ok := ValidTm(p.time);
    var time := p.time.(mday := if p.time.mday == 0 then today else p.time.mday);
    var from, to, cw := Resolve(p, b, defZone);
    r := Some((ok && p.version == PKT_VERSION,
               Header(from, to, if ok then Some(time) else None, p.baud, p.version, productL, b.productH, b.revMin,
                      revMaj, CString(passwd.value), cw)));
  }

  // pkt_put_string_padded, byte by byte onto what was written so far
  method PutPadded(out: seq<byte>, s: seq<byte>, n: nat) returns (r: seq<byte>)
    ensures r == out + Padded(s, n)
  {
    r := out;
    var i := 0;
    ghost var c := CString(s);
    while i < |s| && s[i] != 0 && i < n
      invariant 0 <= i <= |c| && i <= n
      invariant r == out + s[..i]
    {
      r := r + [s[i]];
      i := i + 1;
    }
    assert i < |c| ==> c[i] in c;
    ghost var k := i;
    while i < n
      invariant k <= i <= n
      invariant r == out + s[..k] + seq(i - k, j => 0)
    {
      r := r + [0];
      i := i + 1;
    }
    assert Padded(s, n) == s[..k] + seq(n - k, j => 0);
  }
}
