// What the parts of a message id mean, on both sides of the gateway, in terms of the characters.
module MsgIdForm {
  import opened Common
  import opened Decimal
  import opened FtnNode
  import opened Wildmat
  import opened WildPattern
  import opened MsgId
  import CaseMap

  // ---- quoting ----

  predicate Letter(c: char) {
    exists k :: 0 <= k < 26 && (c == "ABCDEFGHIJKLMNOPQRSTUVWXYZ"[k] || c == "abcdefghijklmnopqrstuvwxyz"[k])
  }

  // The characters that are not quoted.
  predicate Kept(c: char) {
    Letter(c) || c in "0123456789" || c in "!#$%&'*+-.?^`{|}~"
  }

  lemma LetterIs(c: char)
    ensures Letter(c) <==> 'A' <= c <= 'Z' || 'a' <= c <= 'z'
  {
    if 'A' <= c <= 'Z' {
      Alphabet(c as int - 'A' as int);
    }
    if 'a' <= c <= 'z' {
      Alphabet(c as int - 'a' as int);
    }
    if k :| 0 <= k < 26 && (c == "ABCDEFGHIJKLMNOPQRSTUVWXYZ"[k] || c == "abcdefghijklmnopqrstuvwxyz"[k]) {
      Alphabet(k);
    }
  }

  lemma DigitIs(c: char)
    ensures c in "0123456789" <==> '0' <= c <= '9'
  {
    if '0' <= c <= '9' {
      assert "0123456789"[c as int - '0' as int] == c;
    }
  }

  lemma PlainMarks(c: char)
    ensures var n := c as int;
      c in "!#$%&'*+-.?^`{|}~" <==>
      (n == 33 || n == 35 || n == 36 || n == 37 || n == 38 || n == 39 || n == 42 || n == 43 || n == 45 || n
      == 46 || n == 63 || n == 94 || n == 96 || n == 123 || n == 124 || n == 125 || n == 126)
  {
    var t := "!#$%&'*+-.?^`{|}~";
    assert |t| == 17;
    assert t[0] as int == 33;
    assert t[1] as int == 35;
    assert t[2] as int == 36;
    assert t[3] as int == 37;
    assert t[4] as int == 38;
    assert t[5] as int == 39;
    assert t[6] as int == 42;
    assert t[7] as int == 43;
    assert t[8] as int == 45;
    assert t[9] as int == 46;
    assert t[10] as int == 63;
    assert t[11] as int == 94;
    assert t[12] as int == 96;
    assert t[13] as int == 123;
    assert t[14] as int == 124;
    assert t[15] as int == 125;
    assert t[16] as int == 126;
    if c in t {
      var k :| 0 <= k < |t| && t[k] == c;
    }
  }

  lemma QuotedMarks(c: char)
    ensures var n := c as int;
      c in "()<>@,;:\\\"[]/=_" <==>
      (n == 40 || n == 41 || n == 60 || n == 62 || n == 64 || n == 44 || n == 59 || n == 58 || n == 92 || n
      == 34 || n == 91 || n == 93 || n == 47 || n == 61 || n == 95)
  {
    var t := "()<>@,;:\\\"[]/=_";
    assert |t| == 15;
    assert t[0] as int == 40;
    assert t[1] as int == 41;
    assert t[2] as int == 60;
    assert t[3] as int == 62;
    assert t[4] as int == 64;
    assert t[5] as int == 44;
    assert t[6] as int == 59;
    assert t[7] as int == 58;
    assert t[8] as int == 92;
    assert t[9] as int == 34;
    assert t[10] as int == 91;
    assert t[11] as int == 93;
    assert t[12] as int == 47;
    assert t[13] as int == 61;
    assert t[14] as int == 95;
    if c in t {
      var k :| 0 <= k < |t| && t[k] == c;
    }
  }

  lemma KeptIs(c: char)
    requires 0 < c as int < 256 && c != ' '
    ensures IsSpecial(c) <==> !Kept(c)
  {
    LetterIs(c);
    DigitIs(c);
    PlainMarks(c);
    QuotedMarks(c);
  }

  // "%02X"
  function HexPairOf(n: nat): string
    requires n < 256
  {
    ['=', "0123456789ABCDEF"[n / 16], "0123456789ABCDEF"[n % 16]]
  }

  lemma HexDigitIs(d: nat)
    requires d < 16
    ensures HexDigit(d) == "0123456789ABCDEF"[d]
  {
  }

  // A blank becomes an underscore; letters, digits and some marks stay; for everything else
  // its number stands.
  lemma EncIs(c: char)
    requires 0 < c as int < 256
    ensures Enc(c) == if c == ' ' then "_" else if Kept(c) then [c] else HexPairOf(c as int)
  {
    hide Kept, IsSpecial;
    if c != ' ' {
      KeptIs(c);
    }
    HexDigitIs(c as int / 16);
    HexDigitIs(c as int % 16);
  }

  // ---- dequoting ----

  // The value of a hexadecimal digit in either case.
  predicate IsDigitOf(c: char, d: nat)
    requires d < 16
  {
    c == "0123456789ABCDEF"[d] || c == "0123456789abcdef"[d]
  }

  lemma DigitOf(c: char, d: nat)
    requires d < 16 && IsDigitOf(c, d)
    ensures IsHex(c) && HexValue(c) == d
  {
    HexDigitIs(d);
    assert "0123456789abcdef"[d] == LowerChar(HexDigit(d)) by { SmallHexDigit(d); }
  }

  lemma SmallHexDigit(d: nat)
    requires d < 16
    ensures "0123456789abcdef"[d] == LowerChar(HexDigit(d))
  {
  }

  lemma NoDigitOf(c: char)
    requires forall d: nat :: d < 16 ==> !IsDigitOf(c, d)
    ensures !IsHex(c)
  {
    if IsHex(c) {
      var d := HexValue(c);
      HexDigitIs(d);
      SmallHexDigit(d);
      assert IsDigitOf(c, d);
    }
  }

  // An equals sign and two digits are the character of that number; an equals sign before a line
  // end ends the text; any other equals sign repeats the character before; an underscore is a
  // blank; all else is itself.
  lemma DequoteIs(s: string, c: char, room: nat)
    requires room > 0
    ensures forall a: nat, b: nat ::
              |s| >= 3 && s[0] == '=' && a < 16 && b < 16 && IsDigitOf(s[1], a) && IsDigitOf(s[2], b) ==>
                Dequote(s, c, room) == [(16 * a + b) as char] + Dequote(s[3..], (16 * a + b) as char, room - 1)
    ensures "=\n" <= s || "=\r\n" <= s ==> Dequote(s, c, room) == ""
    ensures s != "" && s[0] == '=' && !("=\n" <= s || "=\r\n" <= s)
            && (|s| >= 3 && (exists a: nat :: a < 16 && IsDigitOf(s[1], a)) ==>
                  forall b: nat :: b < 16 ==> !IsDigitOf(s[2], b)) ==>
              Dequote(s, c, room) == [c] + Dequote(s[1..], c, room - 1)
    ensures s != "" && s[0] == '_' ==> Dequote(s, c, room) == [' '] + Dequote(s[1..], ' ', room - 1)
    ensures s != "" && s[0] != '_' && s[0] != '=' ==> Dequote(s, c, room) == [s[0]] + Dequote(s[1..], s[0], room - 1)
  {
    hide IsDigitOf, HexValue, IsHex;
    if s != "" && s[0] == '=' {
      if |s| >= 3 {
        forall a: nat | a < 16 && IsDigitOf(s[1], a) ensures IsHex(s[1]) && HexValue(s[1]) == a {
          DigitOf(s[1], a);
        }
        forall b: nat | b < 16 && IsDigitOf(s[2], b) ensures IsHex(s[2]) && HexValue(s[2]) == b {
          DigitOf(s[2], b);
        }
        if forall a: nat :: a < 16 ==> !IsDigitOf(s[1], a) {
          NoDigitOf(s[1]);
        }
        if forall b: nat :: b < 16 ==> !IsDigitOf(s[2], b) {
          NoDigitOf(s[2]);
        }
      }
      if |s| >= 2 && (s[1] == '\n' || s[1] == '\r') {
        LineEndsNoDigits();
      }
      assert SoftBreak(s) <==> "=\n" <= s || "=\r\n" <= s;
    }
  }

  lemma LineEndsNoDigits()
    ensures !IsHex('\n') && !IsHex('\r')
  {
  }

  // ---- the origin of an id ----

  predicate White(c: char) {
    c == ' ' || c == '\t' || c == '\n' || c as int == 11 || c as int == 12 || c == '\r'
  }

  // Up to the first white space.
  lemma {:induction false} PlainOrigin(o: string, rest: string)
    requires (forall i :: 0 <= i < |o| ==> !White(o[i])) && (rest == "" || White(rest[0]))
    ensures PlainAddr(o + rest) == o
  {
    if o == "" {
      assert o + rest == rest;
    } else {
      assert (o + rest)[1..] == o[1..] + rest;
      PlainOrigin(o[1..], rest);
    }
  }

  // Quotes are doubled between quotes.
  function Doubled(o: string): string {
    if o == "" then "" else (if o[0] == '"' then "\"\"" else [o[0]]) + Doubled(o[1..])
  }

  lemma {:induction false} QuotedOrigin(o: string, rest: string)
    requires rest == "" || rest[0] != '"'
    ensures QuotedAddr(Doubled(o) + "\"" + rest) == o
  {
    var s := Doubled(o) + "\"" + rest;
    if o == "" {
      assert s == "\"" + rest;
    } else {
      var first := if o[0] == '"' then "\"\"" else [o[0]];
      assert s == first + (Doubled(o[1..]) + "\"" + rest);
      assert s[|first|..] == Doubled(o[1..]) + "\"" + rest;
      QuotedOrigin(o[1..], rest);
    }
  }

  // The origin of an id is its first word, or the text in quotes it starts with.
  lemma WordIsOrigin(o: string, rest: string)
    requires (forall i :: 0 <= i < |o| ==> !White(o[i])) && (rest == "" || White(rest[0])) && (o == "" || o[0] != '"')
    ensures OrigAddr(o + rest) == o
  {
    hide PlainAddr;
    PlainOrigin(o, rest);
    assert o == "" ==> o + rest == rest;
  }

  lemma {:induction false} UnclosedOrigin(o: string)
    ensures QuotedAddr(Doubled(o)) == o
  {
    if o != "" {
      var first := if o[0] == '"' then "\"\"" else [o[0]];
      assert Doubled(o)[|first|..] == Doubled(o[1..]);
      UnclosedOrigin(o[1..]);
    }
  }

  lemma QuotedIsOrigin(o: string, rest: string)
    requires rest == "" || rest[0] != '"'
    ensures OrigAddr("\"" + Doubled(o) + "\"" + rest) == o
    ensures OrigAddr("\"" + Doubled(o)) == o
  {
    hide Doubled, QuotedAddr;
    UnclosedOrigin(o);
    assert ("\"" + Doubled(o))[1..] == Doubled(o);
    QuotedOrigin(o, rest);
    var s := "\"" + Doubled(o) + "\"" + rest;
    assert s[1..] == Doubled(o) + "\"" + rest;
  }

  // An id that matches "<*@*>" is an RFC id already.
  lemma RfcStyleText(o: CString)
    ensures IsCString("<*@*>") && WellFormed("<*@*>", 0)
    ensures RfcStyle(o) <==> Matches(Wildmat.Tokens("<*@*>", 0), o, false)
  {
    hide Matches, RfcStyle, WellFormed, Wildmat.Tokens;
    var parts := [Plain('<'), AnyRun, Plain('@'), AnyRun, Plain('>')];
    FivePieces(parts);
    PatternIsC(parts);
    assert "" + PatternText(parts) == PatternText(parts) == "<*@*>";
    TokensFound("", parts);
    RfcStyleIsWildmat(o);
  }

  lemma NoPieces()
    ensures PatternText([]) == "" && TokensOf([]) == []
  {
  }

  lemma PieceFirst(parts: seq<Part>)
    requires parts != []
    ensures PatternText(parts) == PartText(parts[0]) + PatternText(parts[1..])
    ensures TokensOf(parts) == [TokenOf(parts[0])] + TokensOf(parts[1..])
  {
  }

  lemma FivePieces(parts: seq<Part>)
    requires parts == [Plain('<'), AnyRun, Plain('@'), AnyRun, Plain('>')]
    ensures PartsOk(parts) && PatternText(parts) == "<*@*>" && TokensOf(parts) == RFC_PATTERN
  {
    hide PatternText, TokensOf;
    assert PatternText([]) == "" && TokensOf([]) == [] by { NoPieces(); }
    var p4, p3, p2, p1 := parts[4..], parts[3..], parts[2..], parts[1..];
    assert p1[1..] == p2 && p2[1..] == p3 && p3[1..] == p4 && p4[1..] == [];
    PieceFirst(p4);
    PieceFirst(p3);
    PieceFirst(p2);
    PieceFirst(p1);
    PieceFirst(parts);
    assert ">" + "" == ">" && "*" + ">" == "*>" && "@" + "*>" == "@*>" && "*" + "@*>" == "*@*>" && "<" + "*@*>" == "<*@*>";
    assert TokensOf(p4) == [Lit('>')] + [] && TokensOf(p3) == [Star, Lit('>')];
  }

  // ---- its zone and domain ----

  predicate InAddress(c: char) {
    c in "0123456789:/."
  }

  lemma {:induction false} BeforeDigits(pre: string, s: string)
    requires (forall i :: 0 <= i < |pre| ==> pre[i] !in "0123456789") && (s == "" || s[0] in "0123456789")
    ensures FromDigit(pre + s) == s
  {
    if pre == "" {
      assert pre + s == s;
      if s != "" {
        DigitIs(s[0]);
      }
    } else {
      DigitIs(pre[0]);
      assert (pre + s)[1..] == pre[1..] + s;
      BeforeDigits(pre[1..], s);
    }
  }

  lemma InAddressIs(c: char)
    ensures InAddress(c) <==> IsDigit(c) || c in ":/."
  {
    DigitIs(c);
    assert "0123456789:/." == "0123456789" + ":/.";
  }

  lemma {:induction false} RunIs(a: string, post: string)
    requires (forall i :: 0 <= i < |a| ==> InAddress(a[i])) && (post == "" || !InAddress(post[0]))
    ensures AddressRun(a + post) == a
  {
    hide InAddress;
    if a == "" {
      assert a + post == post;
      if post != "" {
        InAddressIs(post[0]);
      }
    } else {
      InAddressIs(a[0]);
      assert (a + post)[1..] == a[1..] + post;
      RunIs(a[1..], post);
    }
  }

  // The zone is that of the first address in the origin, the default one when it has none; without
  // an address it is the own one. Zones 1 to 6 have FidoNet's domain.
  lemma ZoneIs(pre: string, n: Node, post: string, z: Zones)
    requires Proper(n) && (forall i :: 0 <= i < |pre| ==> pre[i] !in "0123456789") && (post == "" || !InAddress(post[0]))
    ensures ZoneOf(pre + (Print(n.zone) + ":" + Print(n.net) + "/" + Print(n.node) + PointSuffix(n.point)) + post, z)
         == n.zone
    ensures ZoneOf(pre + (Print(n.net) + "/" + Print(n.node) + PointSuffix(n.point)) + post, z) == z.defZone
    ensures ZoneOf(pre, z) == z.zone
  {
    hide ParsePartial, Print, PointSuffix, FromDigit, AddressRun;
    var p := if n.point == 0 then None else Some(n.point);
    TailIsSuffix(n.point);
    var full := Print(n.zone) + ":" + Print(n.net) + "/" + Print(n.node) + PointSuffix(n.point);
    var short := Print(n.net) + "/" + Print(n.node) + PointSuffix(n.point);
    AddressHead(n);
    FullReadBack(full, n, p, "");
    NetReadBack(short, n, p);
    RunTaken(pre, full, post);
    RunTaken(pre, short, post);
    assert pre + "" == pre;
    BeforeDigits(pre, "");
    NothingRun();
  }

  lemma NothingRun()
    ensures AddressRun("") == "" && ParsePartial("") == None
  {
  }

  lemma AddressHead(n: Node)
    requires Proper(n)
    ensures var full := Print(n.zone) + ":" + Print(n.net) + "/" + Print(n.node) + PointSuffix(n.point);
      var short := Print(n.net) + "/" + Print(n.node) + PointSuffix(n.point);
      && full != "" && IsDigit(full[0]) && (forall i :: 0 <= i < |full| ==> IsDigit(full[i]) || full[i] in ":/.")
      && short != "" && IsDigit(short[0]) && (forall i :: 0 <= i < |short| ==> IsDigit(short[i]) || short[i] in ":/.")
  {
    hide Print;
    PrintStarts(n.zone);
    PrintStarts(n.net);
    OnlyDigits(n.zone);
    OnlyDigits(n.net);
    OnlyDigits(n.node);
    OnlyDigits(n.point);
  }

  lemma OnlyDigits(v: nat)
    ensures forall i :: 0 <= i < |Print(v)| ==> IsDigit(Print(v)[i])
  {
  }

  lemma RunTaken(pre: string, a: string, post: string)
    requires a != "" && IsDigit(a[0]) && (forall i :: 0 <= i < |a| ==> IsDigit(a[i]) || a[i] in ":/.")
    requires (forall i :: 0 <= i < |pre| ==> pre[i] !in "0123456789") && (post == "" || !InAddress(post[0]))
    ensures AddressRun(FromDigit(pre + a + post)) == a
  {
    hide InAddress, FromDigit, AddressRun;
    DigitIs(a[0]);
    assert pre + a + post == pre + (a + post);
    BeforeDigits(pre, a + post);
    forall i | 0 <= i < |a| ensures InAddress(a[i]) {
      InAddressIs(a[i]);
    }
    RunIs(a, post);
  }

  lemma DomainIs(zone: int, z: Zones)
    ensures DomainOf(zone, z) ==
            if 0 < zone < 7 then "fidonet.org"
            else var d := if zone in z.domains then z.domains[zone] else z.otherwise;
                 if "." <= d then d[1..] else d
  {
    assert ".fidonet.org"[1..] == "fidonet.org";
  }

  // An id that fits, written for RFC readers.
  lemma FormIs(msgid: CString, z: Zones)
    requires Mappable(msgid, z) && Fits(msgid, z)
    ensures FidoToRfc(msgid, z) == "<MSGID_" + QuoteAll(msgid) + "@" + DomainOf(ZoneOf(OrigAddr(msgid), z), z) + ">"
  {
    hide Quote, QuoteAll, OrigAddr, RfcStyle, ZoneOf, DomainOf, FidoToRfc;
    QuoteTakes(msgid, BUFLEN - |PREFIX| - 5);
    TakesAll(msgid, BUFLEN - |PREFIX| - 5);
    assert msgid[..|msgid|] == msgid;
    BuiltId(msgid, z);
    assert "<" + PREFIX == "<MSGID_";
  }

  // ---- the other direction ----

  // One to eight hexadecimal digits, the first of them not 0, and nothing or a '%' behind them.
  predicate OldStyle(id: string, n: nat) {
    && 1 <= n <= 8 && n <= |id| && id[0] != '0'
    && (forall i :: 0 <= i < n ==> HexSign(id[i]))
    && (n == |id| || id[n] == '%')
  }

  predicate HexSign(c: char) {
    exists d: nat :: d < 16 && IsDigitOf(c, d)
  }

  lemma HexIs(c: char)
    ensures IsHex(c) <==> HexSign(c)
  {
    hide IsDigitOf, IsHex;
    if d: nat :| d < 16 && IsDigitOf(c, d) {
      DigitOf(c, d);
    } else {
      NoDigitOf(c);
    }
  }

  lemma {:induction false} HexRunIs(s: string, room: nat)
    ensures HexRun(s, room) <= room && forall i :: 0 <= i < HexRun(s, room) ==> s[i] != '%'
    ensures HexRun(s, room) == room || HexRun(s, room) == |s| || s[HexRun(s, room)] == '%'
  {
    if room > 0 && s != "" && s[0] != '%' {
      HexRunIs(s[1..], room - 1);
    }
  }

  lemma OldHexIs(id: string)
    ensures OldHex(id) <==> exists n: nat :: OldStyle(id, n)
  {
    hide IsHex, HexRun, HexSign;
    forall i | 0 <= i < |id| ensures IsHex(id[i]) <==> HexSign(id[i]) {
      HexIs(id[i]);
    }
    if id != "" {
      HexRunIs(id[1..], 7);
      var w := HexRun(id[1..], 7);
      if OldHex(id) {
        assert OldStyle(id, w + 1);
      }
      if n: nat :| OldStyle(id, n) {
        assert !IsHex('%') by { PercentIsNoDigit(); }
        assert w + 1 <= n;
        assert w + 1 == n;
      }
    }
  }

  lemma PercentIsNoDigit()
    ensures !IsHex('%')
  {
  }

  predicate Between(s: string) {
    forall c :: c in s ==> c != '<' && c != '>' && c != '@'
  }

  // What becomes of the last id in a text, "...<id@host>...".
  lemma RfcIs(before: string, id: string, host: string, after: string, split: bool, isFtnHost: string -> bool)
    requires Between(id) && Between(host) && '<' !in after
    ensures var r := RfcToFido(before + "<" + id + "@" + host + ">" + after, split, isFtnHost);
      if "funpack" <= id || "NOMSGID_" <= id then r == NoId
      else if !split && (exists n: nat :: OldStyle(id, n)) && isFtnHost(host) then r == Old(id)
      else if "MSGID_" <= id then r == Mime(Dequote(id[6..], '\0', |id|))
      else r == Hashed
  {
    hide OldHex, OldStyle, Dequote, Extract;
    OldHexIs(id);
    LastExtracted(before, id, host, after);
  }

  lemma LastExtracted(before: string, id: string, host: string, after: string)
    requires Between(id) && Between(host) && '<' !in after
    ensures Extract(before + "<" + id + "@" + host + ">" + after) == Some((id, host))
  {
    hide AfterLast, CaseMap.IndexOf;
    var tail := id + "@" + host + ">" + after;
    var m := before + "<" + id + "@" + host + ">" + after;
    assert m == before + ("<" + tail);
    assert '<' !in tail;
    LastFound(before, tail);
    assert tail == id + ("@" + host + ">" + after);
    IndexIs(id, '@', "@" + host + ">" + after);
    assert tail[|id| + 1..] == host + (">" + after) && tail[..|id|] == id;
    IndexIs(host, '>', ">" + after);
    assert (host + (">" + after))[..|host|] == host;
  }

  lemma {:induction false} LastFound(before: string, s: string)
    requires '<' !in s
    ensures AfterLast(before + ("<" + s), '<') == Some(s)
    decreases |s|
  {
    var t := before + ("<" + s);
    if s == "" {
      assert t[|t| - 1] == '<';
    } else {
      assert t[..|t| - 1] == before + ("<" + s[..|s| - 1]) && t[|t| - 1] == s[|s| - 1];
      assert s[|s| - 1] in s && forall x :: x in s[..|s| - 1] ==> x in s;
      LastFound(before, s[..|s| - 1]);
      assert s[..|s| - 1] + [s[|s| - 1]] == s;
    }
  }
}
