// FTN message ids as RFC message ids, and back.
module MsgId {
  import opened Common
  import opened Decimal
  import opened FtnNode
  import opened Wildmat
  import CaseMap

  // ---- MIME-style quoting ----

  // isxdigit
  predicate IsHex(c: char) {
    '0' <= c <= '9' || 'A' <= c <= 'F' || 'a' <= c <= 'f'
  }

  function HexValue(c: char): (d: nat)
    requires IsHex(c)
    ensures d < 16
  {
    if c <= '9' then c as int - '0' as int
    else if c <= 'F' then c as int - 'A' as int + 10
    else c as int - 'a' as int + 10
  }

  predicate IsSpecial(c: char) {
    c in "()<>@,;:\\\"[]/=_" || c as int >= 0x7f || c as int < 0x20
  }

  // What stands for one character.
  function Enc(c: char): (s: string)
    requires c as int < 256
    ensures 1 <= |s| <= 3
  {
    if c == ' ' then "_"
    else if IsSpecial(c) then ['=', HexDigit(c as int / 16), HexDigit(c as int % 16)]
    else [c]
  }

  function QuoteAll(s: CString): string {
    if s == "" then "" else Enc(s[0]) + QuoteAll(s[1..])
  }

  // msgid_mime_quote stops at a CR and when fewer than `room` characters are left of its buffer.
  function Quote(s: CString, room: int): (r: string)
    ensures |r| <= if room > 0 then room + 2 else 0
  {
    if room <= 0 || s == "" || s[0] == '\r' then "" else Enc(s[0]) + Quote(s[1..], room - |Enc(s[0])|)
  }

  predicate EscapeAt(s: string) {
    |s| >= 3 && s[0] == '=' && IsHex(s[1]) && IsHex(s[2])
  }

  predicate SoftBreak(s: string) {
    |s| >= 2 && s[0] == '=' && (s[1] == '\n' || (s[1] == '\r' && |s| >= 3 && s[2] == '\n'))
  }

  // mime_dequote; a '=' that starts no escape repeats the character before it, `c`.
  function Dequote(s: string, c: char, room: nat): (r: string)
    ensures |r| <= room
    decreases room
  {
    if room == 0 || s == "" then ""
    else if EscapeAt(s) then
      var v := (16 * HexValue(s[1]) + HexValue(s[2])) as char;
      [v] + Dequote(s[3..], v, room - 1)
    else if SoftBreak(s) then ""
    else
      var v := if s[0] == '=' then c else if s[0] == '_' then ' ' else s[0];
      [v] + Dequote(s[1..], v, room - 1)
  }

  // ---- FTN to RFC ----

  predicate IsSpace(c: char) { c == ' ' || '\t' <= c <= '\r' }

  // The address of a quoted id: up to its closing quote, "" standing for one quote.
  function QuotedAddr(s: string): string {
    if s == "" || (s[0] == '"' && !(|s| >= 2 && s[1] == '"')) then ""
    else if s[0] == '"' then ['"'] + QuotedAddr(s[2..])
    else [s[0]] + QuotedAddr(s[1..])
  }

  function PlainAddr(s: string): string {
    if s == "" || IsSpace(s[0]) then "" else [s[0]] + PlainAddr(s[1..])
  }

  function OrigAddr(msgid: string): string {
    if msgid != "" && msgid[0] == '"' then QuotedAddr(msgid[1..]) else PlainAddr(msgid)
  }

  // wildmat(origaddr, "<*@*>")
  predicate RfcStyle(o: string) {
    |o| >= 3 && o[0] == '<' && o[|o| - 1] == '>' && '@' in o[1..|o| - 1]
  }

  const RFC_PATTERN: seq<Token> := [Lit('<'), Star, Lit('@'), Star, Lit('>')]

  // That is what the pattern means.
  lemma RfcStyleIsWildmat(o: CString)
    ensures RfcStyle(o) <==> Matches(RFC_PATTERN, o, false)
  {
    hide Matches;
    var inner := [Lit('@'), Star, Lit('>')];
    assert RFC_PATTERN == [Lit('<')] + ([Star] + inner) && inner == [Lit('@')] + [Star, Lit('>')];
    LitMatches('<', [Star] + inner, o);
    if o != "" {
      var s: CString := o[1..];
      StarMatches(inner, s);
      forall k | 0 <= k <= |s|
        ensures Matches(inner, s[k..], false) <==> k < |s| && s[k] == '@' && k + 1 < |s| && s[|s| - 1] == '>'
      {
        LitMatches('@', [Star, Lit('>')], s[k..]);
        if k < |s| {
          TailMatches(s[k..][1..]);
        }
      }
      if RfcStyle(o) {
        InnerAt(o);
        var k :| 0 <= k < |o| - 2 && s[k] == '@';
        assert Matches(inner, s[k..], false);
      }
      if Matches([Star] + inner, s, false) {
        var k :| 0 <= k <= |s| && Matches(inner, s[k..], false);
        assert o[1..|o| - 1][k] == '@';
      }
    }
  }

  lemma StarMatches(ts: seq<Token>, s: CString)
    ensures Matches([Star] + ts, s, false) <==> exists k :: 0 <= k <= |s| && Matches(ts, s[k..], false)
  {
    assert ([Star] + ts)[1..] == ts;
  }

  lemma InnerAt(o: string)
    requires RfcStyle(o)
    ensures exists k :: 0 <= k < |o| - 2 && o[1..][k] == '@'
  {
    var i :| 0 <= i < |o| - 2 && o[1..|o| - 1][i] == '@';
    assert o[1..][i] == '@';
  }

  lemma LitMatches(c: char, ts: seq<Token>, s: CString)
    requires 0 < c as int < 128
    ensures Matches([Lit(c)] + ts, s, false) <==> s != "" && s[0] == c && Matches(ts, s[1..], false)
  {
    assert ([Lit(c)] + ts)[1..] == ts;
  }

  lemma TailMatches(s: CString)
    ensures Matches([Star, Lit('>')], s, false) <==> s != "" && s[|s| - 1] == '>'
  {
    hide Matches;
    assert [Star, Lit('>')] == [Star] + ([Lit('>')] + []);
    StarMatches([Lit('>')] + [], s);
    forall k | 0 <= k <= |s|
      ensures Matches([Lit('>')] + [], s[k..], false) <==> k + 1 == |s| && s[k] == '>'
    {
      LitMatches('>', [], s[k..]);
      if k < |s| {
        NothingMatches(s[k..][1..]);
      }
    }
    if s != "" && s[|s| - 1] == '>' {
      assert Matches([Lit('>')] + [], s[|s| - 1..], false);
    }
  }

  lemma NothingMatches(s: CString)
    ensures Matches([], s, false) <==> s == ""
  {
  }

  datatype Zones = Zones(zone: int, defZone: int, domains: map<int, string>, otherwise: string)

  function FromDigit(s: string): string {
    if s == "" || IsDigit(s[0]) then s else FromDigit(s[1..])
  }

  function AddressRun(s: string): string {
    if s == "" || !(IsDigit(s[0]) || s[0] in ":/.") then "" else [s[0]] + AddressRun(s[1..])
  }

  // The zone of the first address-like part of the origin.
  function ZoneOf(o: string, z: Zones): int {
    match ParsePartial(AddressRun(FromDigit(o)))
    case None => z.zone
    case Some(a) =>
      if HasWildcard(a.n) || a.n.net == EMPTY || a.n.node == EMPTY then z.zone
      else if a.n.zone == EMPTY then z.defZone else a.n.zone
  }

  const MSGID_FIDONET_DOMAIN := ".fidonet.org"

  // msgid_domain
  function DomainOf(zone: int, z: Zones): string {
    var d := if 1 <= zone <= 6 then MSGID_FIDONET_DOMAIN
             else if zone in z.domains then z.domains[zone] else z.otherwise;
    if d != "" && d[0] == '.' then d[1..] else d
  }

  const PREFIX := "MSGID_"
  const BUFLEN := 256  // 2 * MAXINETADDR

  // Appending to a buffer of n characters with str_append.
  function Append(d: string, n: nat, s: string): (r: string)
    requires |d| < n
    ensures |r| < n
  {
    if |d + s| < n then d + s else (d + s)[..n - 1]
  }

  // s_msgid_fido_to_rfc without a history of ids
  function FidoToRfc(msgid: CString, z: Zones): string {
    var o := OrigAddr(msgid);
    if RfcStyle(o) then o
    else
      var t := "<" + PREFIX;
      var q := t + Quote(msgid, BUFLEN - |t| - 4);
      Append(Append(Append(q, BUFLEN, "@"), BUFLEN, DomainOf(ZoneOf(o, z), z)), BUFLEN, ">")
  }

  // ---- RFC to FTN ----

  // What follows the last c; None without one.
  function AfterLast(s: string, c: char): (r: Option<string>)
    ensures r.Some? ==> |r.value| < |s|
  {
    if s == "" then None
    else if s[|s| - 1] == c then Some("")
    else
      var r := AfterLast(s[..|s| - 1], c);
      if r.None? then None else Some(r.value + [s[|s| - 1]])
  }

  // The check for an old-style id: up to eight hex digits, not starting with 0, and maybe %domain.
  predicate OldHex(id: string) {
    && id != "" && IsHex(id[0]) && id[0] != '0'
    && var w := HexRun(id[1..], 7);
       w < |id| && (forall i :: 1 <= i <= w ==> IsHex(id[i])) && (w + 1 == |id| || id[w + 1] == '%')
  }

  // How many characters the check steps over.
  function HexRun(s: string, room: nat): (k: nat)
    ensures k <= |s|
  {
    if room == 0 || s == "" || s[0] == '%' then 0 else 1 + HexRun(s[1..], room - 1)
  }

  // NoId: a null pointer; Old: an id this gateway wrote in the old style; Mime: a quoted id;
  // Hashed: any other id, turned into a checksum.
  datatype FtnId = NoId | Old(id: string) | Mime(id: string) | Hashed

  predicate Starts(s: string, p: string) { p <= s }

  // The id and the host of the last "<id@host>".
  function Extract(m: string): Option<(string, string)> {
    var id0 := AfterLast(m, '<');
    if id0.None? then None
    else
      var at := CaseMap.IndexOf(id0.value, '@');
      if at.None? then None
      else
        var host := id0.value[at.value + 1..];
        var gt := CaseMap.IndexOf(host, '>');
        if gt.None? then None else Some((id0.value[..at.value], host[..gt.value]))
  }

  // s_msgid_rfc_to_fido; isFtnHost stands for inet_to_ftn.
  function RfcToFido(m: string, split: bool, isFtnHost: string -> bool): FtnId {
    var x := Extract(m);
    if x.None? then NoId
    else
      var (id, host) := x.value;
      if Starts(id, "funpack") || Starts(id, "NOMSGID_") then NoId
      else if !split && OldHex(id) && isFtnHost(host) then Old(id)
      else if Starts(id, PREFIX) then Mime(Dequote(id[|PREFIX|..], '\0', |id|))
      else Hashed
  }

  // ---- quoting loses nothing ----

  lemma HexPair(v: nat)
    requires v < 256
    ensures 16 * HexValue(HexDigit(v / 16)) + HexValue(HexDigit(v % 16)) == v
  {
  }

  // The characters of s that are quoted before the buffer is full or a CR comes.
  function Taken(s: CString, room: int): (k: nat)
    ensures k <= |s|
  {
    if room <= 0 || s == "" || s[0] == '\r' then 0 else 1 + Taken(s[1..], room - |Enc(s[0])|)
  }

  lemma {:induction false} QuoteTakes(s: CString, room: int)
    ensures Quote(s, room) == QuoteAll(s[..Taken(s, room)])
  {
    hide Enc;
    var k := Taken(s, room);
    if k > 0 {
      QuoteTakes(s[1..], room - |Enc(s[0])|);
      assert s[..k][1..] == s[1..][..k - 1];
    } else {
      assert s[..0] == "";
    }
  }

  // Everything is quoted exactly when there is no CR and room is left before the last character.
  lemma {:induction false} TakesAll(s: CString, room: int)
    ensures Taken(s, room) == |s| <==> '\r' !in s && (s != "" ==> |QuoteAll(s[..|s| - 1])| < room)
  {
    hide Enc;
    if s != "" {
      var t, left := s[1..], room - |Enc(s[0])|;
      TakesAll(t, left);
      assert s == [s[0]] + t;
      if |s| == 1 {
        assert QuoteAll(s[..0]) == "";
      } else {
        assert s[..|s| - 1][1..] == t[..|t| - 1];
        assert QuoteAll(s[..|s| - 1]) == Enc(s[0]) + QuoteAll(t[..|t| - 1]);
      }
    }
  }

  lemma EncReadBack(a: char, post: string, c: char, room: nat)
    requires 0 < a as int < 256 && room > 0
    ensures Dequote(Enc(a) + post, c, room) == [a] + Dequote(post, a, room - 1)
  {
    var s := Enc(a) + post;
    if a != ' ' && IsSpecial(a) {
      HexPair(a as int);
      assert s[3..] == post;
    } else {
      assert s[1..] == post;
    }
  }

  // mime_dequote undoes msgid_mime_quote,
  lemma {:induction false} DequoteQuote(s: CString, c: char, room: nat)
    requires room >= |s|
    ensures Dequote(QuoteAll(s), c, room) == s
  {
    hide Enc;
    if s != "" {
      EncReadBack(s[0], QuoteAll(s[1..]), c, room);
      DequoteQuote(s[1..], s[0], room - 1);
    }
  }

  // whose text can stand inside "<...@...>".
  lemma {:induction false} QuoteHasNoMarks(s: CString)
    ensures forall x :: x in QuoteAll(s) ==> x != '<' && x != '>' && x != '@'
    ensures |QuoteAll(s)| >= |s|
  {
    if s != "" {
      QuoteHasNoMarks(s[1..]);
    }
  }

  // ---- there and back ----

  function FullId(msgid: CString, dom: string): string {
    "<" + PREFIX + QuoteAll(msgid) + "@" + dom + ">"
  }

  lemma {:induction false} LastIsFirst(s: string)
    requires '<' !in s
    ensures AfterLast("<" + s, '<') == Some(s)
  {
    var t := "<" + s;
    if s == "" {
      assert t == "<";
    } else {
      assert t[..|t| - 1] == "<" + s[..|s| - 1] && t[|t| - 1] == s[|s| - 1];
      assert s[|s| - 1] in s && forall x :: x in s[..|s| - 1] ==> x in s;
      LastIsFirst(s[..|s| - 1]);
      assert s[..|s| - 1] + [s[|s| - 1]] == s;
    }
  }

  lemma {:induction false} IndexIs(a: string, c: char, post: string)
    requires c !in a && (post == "" || post[0] == c)
    ensures CaseMap.IndexOf(a + post, c) == if post == "" then None else Some(|a|)
  {
    if a == "" {
      assert a + post == post;
    } else {
      assert (a + post)[1..] == a[1..] + post;
      assert a[0] in a && forall x :: x in a[1..] ==> x in a;
      IndexIs(a[1..], c, post);
    }
  }

  // Reading the id out of "<MSGID_q@dom" with or without the closing bracket.
  lemma IdExtracted(q: string, dom: string, tail: string)
    requires (forall x :: x in q ==> x != '<' && x != '>' && x != '@')
    requires '<' !in dom && '>' !in dom && (tail == "" || tail == ">")
    ensures Extract("<" + PREFIX + q + "@" + dom + tail) == if tail == "" then None else Some((PREFIX + q, dom))
  {
    hide CaseMap.IndexOf, AfterLast;
    var id := PREFIX + q;
    var host := dom + tail;
    var id0 := id + ("@" + host);
    assert "<" + PREFIX + q + "@" + dom + tail == "<" + id0;
    NoMark(id0, q, dom, tail);
    LastIsFirst(id0);
    IndexIs(id, '@', "@" + host);
    assert id0[|id| + 1..] == host && id0[..|id|] == id;
    IndexIs(dom, '>', tail);
    assert host[..|dom|] == dom;
  }

  // An id with our prefix is always dequoted.
  lemma MimeIds(m: string, q: string, host: string, split: bool, isFtnHost: string -> bool)
    requires Extract(m) == Some((PREFIX + q, host))
    ensures RfcToFido(m, split, isFtnHost) == Mime(Dequote(q, '\0', |PREFIX| + |q|))
  {
    hide Dequote, Extract;
    var id := PREFIX + q;
    assert id[0] == 'M' && id[|PREFIX|..] == q;
    IdStarts(q);
    assert !OldHex(id);
  }

  lemma IdStarts(q: string)
    ensures var id := PREFIX + q; !Starts(id, "funpack") && !Starts(id, "NOMSGID_") && Starts(id, PREFIX)
  {
    var id := PREFIX + q;
    assert id[0] == 'M' && "funpack"[0] == 'f' && "NOMSGID_"[0] == 'N';
  }

  lemma NoMark(id0: string, q: string, dom: string, tail: string)
    requires id0 == PREFIX + q + ("@" + (dom + tail))
    requires (forall x :: x in q ==> x != '<' && x != '>' && x != '@')
    requires '<' !in dom && (tail == "" || tail == ">")
    ensures '<' !in id0 && '@' !in PREFIX + q
  {
    assert forall x :: x in PREFIX ==> x != '<' && x != '@';
  }

  // The message id as it is built: all of it, or cut before its closing bracket.
  lemma BuiltId(msgid: CString, z: Zones)
    requires !RfcStyle(OrigAddr(msgid))
    ensures var dom := DomainOf(ZoneOf(OrigAddr(msgid), z), z);
      var q := Quote(msgid, BUFLEN - |PREFIX| - 5);
      var full := "<" + PREFIX + q + "@" + dom + ">";
      FidoToRfc(msgid, z) == if |full| < BUFLEN then full else full[..BUFLEN - 1]
  {
    hide Quote, OrigAddr, RfcStyle, ZoneOf, DomainOf;
    var dom := DomainOf(ZoneOf(OrigAddr(msgid), z), z);
    var a := "<" + PREFIX + Quote(msgid, BUFLEN - |PREFIX| - 5);
    assert |a| < BUFLEN;
    Appended(a, dom);
  }

  lemma Appended(a: string, dom: string)
    requires |a| < BUFLEN
    ensures var full := a + "@" + dom + ">";
      Append(Append(Append(a, BUFLEN, "@"), BUFLEN, dom), BUFLEN, ">") == if |full| < BUFLEN then full else full[..BUFLEN - 1]
  {
    var full := a + "@" + dom + ">";
    var b := Append(a, BUFLEN, "@");
    if |a + "@"| < BUFLEN {
      var c := Append(b, BUFLEN, dom);
      if |b + dom| >= BUFLEN {
        assert c == full[..BUFLEN - 1];
        assert (c + ">")[..BUFLEN - 1] == c;
      } else {
        assert c + ">" == full;
      }
    } else {
      assert b == full[..BUFLEN - 1] == a;
      assert (b + dom)[..BUFLEN - 1] == b && (b + ">")[..BUFLEN - 1] == b;
    }
  }

  // What the gateway is asked to map: an id that is not an RFC id already, and a domain that
  // can stand between brackets.
  predicate Mappable(msgid: CString, z: Zones) {
    var dom := DomainOf(ZoneOf(OrigAddr(msgid), z), z);
    !RfcStyle(OrigAddr(msgid)) && '<' !in dom && '>' !in dom
  }

  // No CR, and room for the RFC form in its buffer.
  predicate Fits(msgid: CString, z: Zones) {
    && '\r' !in msgid
    && |FullId(msgid, DomainOf(ZoneOf(OrigAddr(msgid), z), z))| < 256
    && (msgid != "" ==> |QuoteAll(msgid[..|msgid| - 1])| < 245)
  }

  // An FTN message id comes back through RFC exactly when it fits.
  lemma RoundTrip(msgid: CString, z: Zones, split: bool, isFtnHost: string -> bool)
    requires Mappable(msgid, z)
    ensures RfcToFido(FidoToRfc(msgid, z), split, isFtnHost) == Mime(msgid) <==> Fits(msgid, z)
  {
    hide Quote, QuoteAll, OrigAddr, RfcStyle, ZoneOf, DomainOf, RfcToFido, FidoToRfc, Dequote, Extract;
    var dom := DomainOf(ZoneOf(OrigAddr(msgid), z), z);
    var room := BUFLEN - |PREFIX| - 5;
    var k := Taken(msgid, room);
    var part: CString := msgid[..k];
    var q := QuoteAll(part);
    QuoteTakes(msgid, room);
    TakesAll(msgid, room);
    QuoteHasNoMarks(part);
    DequoteQuote(part, '\0', |PREFIX| + |q|);
    BuiltId(msgid, z);
    var full := "<" + PREFIX + q + "@" + dom + ">";
    assert k == |msgid| ==> part == msgid && full == FullId(msgid, dom);
    if |full| < BUFLEN {
      IdExtracted(q, dom, ">");
      MimeIds(full, q, dom, split, isFtnHost);
    } else {
      CutIsNoId(q, dom, BUFLEN - 1);
      NoIdWithout(full[..BUFLEN - 1], split, isFtnHost);
    }
  }

  lemma NoIdWithout(m: string, split: bool, isFtnHost: string -> bool)
    requires Extract(m) == None
    ensures RfcToFido(m, split, isFtnHost) == NoId
  {
  }

  // Cut off anywhere before its closing bracket, it is no id at all.
  lemma CutIsNoId(q: string, dom: string, n: nat)
    requires (forall x :: x in q ==> x != '<' && x != '>' && x != '@')
    requires '<' !in dom && '>' !in dom
    requires var full := "<" + PREFIX + q + "@" + dom + ">"; 0 < n < |full|
    ensures var full := "<" + PREFIX + q + "@" + dom + ">"; Extract(full[..n]) == None
  {
    var full := "<" + PREFIX + q + "@" + dom + ">";
    var head := "<" + PREFIX + q;
    if n > |head| {
      hide Extract;
      var d := dom[..n - |head| - 1];
      assert forall x :: x in d ==> x in dom;
      assert full[..n] == "<" + PREFIX + q + "@" + d + "";
      IdExtracted(q, d, "");
    } else {
      hide CaseMap.IndexOf, AfterLast;
      var t := (PREFIX + q)[..n - 1];
      assert full[..n] == "<" + t;
      NoMark(PREFIX + q + ("@" + ("" + "")), q, "", "");
      assert forall x :: x in t ==> x in PREFIX + q && x in PREFIX + q + ("@" + ("" + ""));
      LastIsFirst(t);
      IndexIs(t, '@', "");
      assert t + "" == t;
    }
  }

  // No two ids that survive share an RFC form.
  lemma Injective(a: CString, b: CString, z: Zones)
    requires Mappable(a, z) && Fits(a, z) && Mappable(b, z) && Fits(b, z)
    requires FidoToRfc(a, z) == FidoToRfc(b, z)
    ensures a == b
  {
    hide Mappable, Fits, RfcToFido, FidoToRfc;
    RoundTrip(a, z, false, h => false);
    RoundTrip(b, z, false, h => false);
  }

  // ---- as the source does it ----

  // One character of it.
  method PutEnc(d: array<char>, from: nat, c: char) returns (len: nat)
    requires from + 4 < d.Length && c as int < 256
    modifies d
    ensures len == from + |Enc(c)| && d[..len] == old(d[..from]) + Enc(c)
  {
    len := from;
    if c == ' ' {
      d[len] := '_';
    } else if IsSpecial(c) {
      d[len], d[len + 1], d[len + 2] := '=', HexDigit(c as int / 16), HexDigit(c as int % 16);
      len := len + 2;
    } else {
      d[len] := c;
    }
    len := len + 1;
  }

  // msgid_mime_quote into the first n characters of a buffer
  method MimeQuote(d: array<char>, s: CString) returns (len: nat)
    requires d.Length >= 4
    modifies d
    ensures len == |Quote(s, d.Length - 4)| && d[..len] == Quote(s, d.Length - 4) && d[len] == '\0'
  {
    hide Enc, Quote;
    var n, k := d.Length, 0;
    len := 0;
    ghost var acc := "";
    assert s[0..] == s && acc + Quote(s, n - 4) == Quote(s, n - 4);
    while len < n - 4 && k < |s| && s[k] != '\r'
      invariant len <= n - 2 && k <= |s|
      invariant d[..len] == acc
      invariant acc + Quote(s[k..], n - 4 - len) == Quote(s, n - 4)
      decreases |s| - k
    {
      var c := s[k];
      QuoteStep(s, k, n - 4 - len);
      len := PutEnc(d, len, c);
      k := k + 1;
      Regroup(acc, Enc(c), Quote(s[k..], n - 4 - len));
      acc := acc + Enc(c);
    }
    QuoteStep(s, k, n - 4 - len);
    d[len] := '\0';
    assert acc + "" == acc == d[..len];
  }

  lemma QuoteStep(s: CString, k: nat, room: int)
    requires k <= |s|
    ensures Quote(s[k..], room) ==
      if room <= 0 || k == |s| || s[k] == '\r' then "" else Enc(s[k]) + Quote(s[k + 1..], room - |Enc(s[k])|)
  {
    hide Enc;
    assert k < |s| ==> s[k..][1..] == s[k + 1..];
  }

  // mime_dequote into a buffer
  method MimeDequote(d: array<char>, s: string) returns (len: nat)
    requires d.Length > 0
    modifies d
    ensures len == |Dequote(s, '\0', d.Length - 1)| && d[..len] == Dequote(s, '\0', d.Length - 1) && d[len] == '\0'
  {
    hide EscapeAt, SoftBreak, Dequote;
    var n, k, c := d.Length, 0, '\0';
    len := 0;
    ghost var acc := "";
    assert s[0..] == s && acc + Dequote(s, c, n - 1) == Dequote(s, c, n - 1);
    while len < n - 1 && k < |s|
      invariant len <= n - 1 && k <= |s|
      invariant d[..len] == acc
      invariant acc + Dequote(s[k..], c, n - 1 - len) == Dequote(s, '\0', n - 1)
      decreases |s| - k
    {
      DequoteStep(s, k, c, n - 1 - len);
      var step := 1;
      if EscapeAt(s[k..]) {
        EscapeShape(s[k..]);
        c := (16 * HexValue(s[k + 1]) + HexValue(s[k + 2])) as char;
        step := 3;
      } else if s[k] == '=' {
        if SoftBreak(s[k..]) { break; }
      } else if s[k] == '_' {
        c := ' ';
      } else {
        c := s[k];
      }
      d[len] := c;
      len, k := len + 1, k + step;
      Regroup(acc, [c], Dequote(s[k..], c, n - 1 - len));
      acc := acc + [c];
    }
    DequoteEnd(s[k..], c, n - 1 - len);
    d[len] := '\0';
    assert acc + "" == acc == d[..len];
  }

  lemma DequoteEnd(s: string, c: char, room: nat)
    ensures room == 0 || s == "" ==> Dequote(s, c, room) == ""
  {
  }

  lemma DequoteStep(s: string, k: nat, c: char, room: nat)
    requires k < |s| && room > 0
    ensures var t := s[k..];
      && t != [] && t[0] == s[k] && (s[k] != '=' ==> !EscapeAt(t) && !SoftBreak(t))
      && (EscapeAt(t) ==> k + 3 <= |s| && IsHex(s[k + 1]) && IsHex(s[k + 2]))
    ensures var t := s[k..];
      Dequote(t, c, room) ==
        if EscapeAt(t) then
          var v := (16 * HexValue(s[k + 1]) + HexValue(s[k + 2])) as char;
          [v] + Dequote(s[k + 3..], v, room - 1)
        else if SoftBreak(t) then ""
        else
          var v := if s[k] == '=' then c else if s[k] == '_' then ' ' else s[k];
          [v] + Dequote(s[k + 1..], v, room - 1)
  {
    assert s[k..][1..] == s[k + 1..] && (k + 3 <= |s| ==> s[k..][3..] == s[k + 3..]);
  }

  lemma EscapeShape(s: string)
    requires EscapeAt(s)
    ensures |s| >= 3 && IsHex(s[1]) && IsHex(s[2])
  {
  }
}
