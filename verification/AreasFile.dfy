// The areas.bbs file as a whole: areasbbs_init and areasbbs_print.
module AreasFile {
  import opened Common
  import opened FtnNode
  import opened StrTok
  import opened NodeList
  import opened AreasBbs
  import opened Decimal

  const BUFFERSIZE := 32 * 1024

  // How much fgets takes: up to and with the line break, or until its buffer is full.
  function LineLen(s: string, room: nat): (k: nat)
    ensures k <= |s| && (s != "" && room > 0 ==> k > 0)
  {
    if room == 0 || s == "" then 0 else if s[0] == '\n' then 1 else 1 + LineLen(s[1..], room - 1)
  }

  // strip_crlf
  function StripCrLf(s: string): string {
    var a := if s != "" && s[|s| - 1] == '\n' then s[..|s| - 1] else s;
    if a != "" && a[|a| - 1] == '\r' then a[..|a| - 1] else a
  }

  function Lines(s: string): seq<string>
    decreases |s|
  {
    if s == "" then [] else
      var k := LineLen(s, BUFFERSIZE - 1);
      [StripCrLf(s[..k])] + Lines(s[k..])
  }

  // The entries of the lines, leaving out lines without an area; None when one of them is Undefined.
  function Entries(lines: seq<string>, c: Config): Option<seq<Entry>> {
    if lines == [] then Some([])
    else
      var p, rest := ParseTokens(Tokens(lines[0]), c), Entries(lines[1..], c);
      if p.Undefined? || rest.None? then None
      else Some((if p.NoEntry? then [] else [p.e]) + rest.value)
  }

  predicate Printable(es: seq<Entry>) {
    forall i :: 0 <= i < |es| ==> es[i].uplinks >= 1
  }

  function Body(es: seq<Entry>): string
    requires Printable(es)
  {
    if es == [] then "" else LineText(es[0]) + "\n" + Body(es[1..])
  }

  function FileText(first: string, es: seq<Entry>): string
    requires Printable(es)
  {
    first + "\n" + Body(es)
  }

  // ---- areasbbs_parse_line ----

  function Ahead(nl: Option<string>, pending: seq<string>): seq<string> {
    if nl.None? then [] else [nl.value] + pending
  }

  method ParseLine(line: string, c: Config) returns (r: Parsed)
    ensures r == ParseTokens(Tokens(line), c)
  {
    hide Tokens, ParseOptions, AddLinks, SetOption, SetFlag, SetBare, TakesValue, Begin;
    var t := new Tokenizer(line);
    ghost var all := t.Pending();
    var dir := t.NextToken();
    var tag := t.NextToken();
    if dir.None? || tag.None? {
      return NoEntry;
    }
    var e := Begin(dir.value, tag.value);
    ghost var rest := t.Pending();
    assert all == [dir.value] + ([tag.value] + rest);
    assert all[2..] == rest;
    var x, nl := OptionLoop(e, t, c);
    if x.None? {
      return Undefined;
    }
    e := x.value;
    ghost var last := Ahead(nl, t.Pending());
    var ls := AddString(nl, t, c.zone, Lists(e.nodes, e.passive));
    LinksAdded(e, last, c);
    if ls.None? {
      return Undefined;
    }
    r := Parsed(WithZone(e.(nodes := ls.value.nodes, passive := ls.value.passive)));
  }

  // One option with its value.
  method TakeOption(e: Entry, opt: string, v: string, c: Config) returns (x: Entry)
    ensures x == SetOption(e, opt, v, c)
  {
    hide ParsePartial, AddPassive, Atoi, Anchored;
    if opt == "-a" {
      var a := ParsePartialText(v);
      x := e.(addr := Anchored(a, e.addr, c.defZone));
    } else if opt == "-p" {
      var l := ReadPassive(v, c.zone, e.passive);
      x := e.(passive := l);
    } else {
      x := SetOption(e, opt, v, c);
    }
  }

  // The loop over the options: the entry, and the first token after them.
  method OptionLoop(begin: Entry, t: Tokenizer, c: Config) returns (r: Option<Entry>, nl: Option<string>)
    modifies t
    ensures r.None? <==> ParseOptions(begin, old(t.Pending()), c).None?
    ensures r.Some? ==> ParseOptions(begin, old(t.Pending()), c) == Some((r.value, Ahead(nl, t.Pending())))
    ensures nl.None? ==> t.Pending() == []
  {
    hide Tokens, ParseOptions, SetOption, SetFlag, SetBare, TakesValue;
    var e := begin;
    nl := t.NextToken();
    assert old(t.Pending()) == Ahead(nl, t.Pending());
    while IsOption(Ahead(nl, []))
      invariant nl.None? ==> t.Pending() == []
      invariant ParseOptions(e, Ahead(nl, t.Pending()), c) == ParseOptions(begin, old(t.Pending()), c)
      decreases |Ahead(nl, t.Pending())|
    {
      ghost var toks := Ahead(nl, t.Pending());
      OptionsUnfold(e, toks, c);
      if TakesValue(nl.value) {
        var o2 := t.NextToken();
        if o2.None? {
          var bare := SetBare(e, nl.value);
          if bare.None? { return None, nl; }
          e := bare.value;
          OptionsUnfold(e, [], c);
        } else {
          assert toks[2..] == t.Pending() && toks[1] == o2.value;
          e := TakeOption(e, nl.value, o2.value, c);
        }
      } else {
        assert toks[1..] == t.Pending();
        e := SetFlag(e, nl.value);
      }
      nl := t.NextToken();
      assert Ahead(nl, t.Pending()) == if |toks| == 1 then [] else if TakesValue(toks[0]) then toks[2..] else toks[1..];
    }
    OptionsUnfold(e, Ahead(nl, t.Pending()), c);
    return Some(e), nl;
  }

  lemma LinksAdded(e: Entry, toks: seq<string>, c: Config)
    ensures var ls := AddNodes(toks, None, Start(c.zone), Lists(e.nodes, e.passive));
      AddLinks(e, toks, c) == if ls.None? then Undefined
        else Parsed(WithZone(e.(nodes := ls.value.nodes, passive := ls.value.passive)))
  {
  }

  lemma OptionsUnfold(e: Entry, toks: seq<string>, c: Config)
    ensures ParseOptions(e, toks, c) ==
      if !IsOption(toks) then Some((e, toks))
      else if !TakesValue(toks[0]) then ParseOptions(SetFlag(e, toks[0]), toks[1..], c)
      else if |toks| >= 2 then ParseOptions(SetOption(e, toks[0], toks[1], c), toks[2..], c)
      else if SetBare(e, toks[0]).None? then None else Some((SetBare(e, toks[0]).value, []))
  {
    hide SetOption, SetFlag, SetBare, TakesValue;
  }

  // areasbbs_add_string
  method AddString(first: Option<string>, t: Tokenizer, zone: int, ls: Lists) returns (r: Option<Lists>)
    requires first.None? ==> t.Pending() == []
    modifies t
    ensures r == AddNodes(Ahead(first, old(t.Pending())), None, Start(zone), ls)
  {
    hide ParsePartial, Tokens, Completed;
    var p, prev, node, acc := first, Start(zone), None, ls;
    while p.Some?
      invariant p.None? ==> t.Pending() == []
      invariant AddNodes(Ahead(p, t.Pending()), node, prev, acc) == AddNodes(Ahead(first, old(t.Pending())), None, Start(zone), ls)
      decreases |Ahead(p, t.Pending())|
    {
      ghost var toks := Ahead(p, t.Pending());
      var text := p.value;
      if text != "" && text[0] == 'P' {
        if node.None? { return None; }
        acc := acc.(passive := acc.passive + [node.value]);
        text := text[1..];
      }
      var a := ParsePartialText(text);
      var n := Completed(a, prev);
      if n.None? { return Some(acc); }
      acc := acc.(nodes := acc.nodes + [n.value]);
      prev, node := n.value, n;
      assert toks[1..] == t.Pending();
      p := t.NextToken();
      assert Ahead(p, t.Pending()) == toks[1..];
    }
    return Some(acc);
  }

  // ---- areasbbs_print ----

  method PrintWhen(out: string, b: bool, opt: string, f: Field) returns (r: string)
    ensures r == out + FieldsText(When(b, opt, f))
  {
    WhenText(b, opt, f);
    r := out;
    if b {
      r := r + opt + " " + FieldText(f);
      assert r == out + (opt + " " + FieldText(f));
    } else {
      assert out + "" == out;
    }
  }

  lemma WhenText(b: bool, opt: string, f: Field)
    ensures FieldsText(When(b, opt, f)) == if b then opt + " " + FieldText(f) else ""
  {
    if b {
      var fs := [Word(opt), f];
      assert fs[1..] == [f] && [f][1..] == [];
      assert FieldsText([f]) == FieldText(f) + "" == FieldText(f);
    }
  }

  method PrintLine(e: Entry) returns (out: string)
    requires e.uplinks >= 1
    ensures out == LineText(e)
  {
    hide FieldsText, LineText, FieldText, When, Print, AddressText, PassiveText, ListText;
    out := if e.passthru then "#" else "";
    out := out + e.dir + " " + e.area + " ";
    HeadText(e);
    out := PrintWhen(out, e.zone != -1, "-z", Word(Print(e.zone)));
    out := PrintWhen(out, e.addr.n.zone != -1, "-a", Word(AddressText(e.addr)));
    out := PrintWhen(out, e.lvl != -1, "-l", Word(Print(e.lvl)));
    out := PrintWhen(out, e.key.Some?, "-k", Word(Given(e.key)));
    var passive := PrintPassive(e.passive);
    out := PrintWhen(out, 0 < |e.passive|, "-p", Word(passive));
    out := PrintWhen(out, true, "-t", Word(Print(Unsigned(e.time))));
    out := PrintWhen(out, e.expireN != 0, "-e", Word(Print(e.expireN)));
    out := PrintWhen(out, e.expireT != 0, "-n", Word(Print(e.expireT)));
    out := PrintWhen(out, e.desc.Some?, "-d", Text(Given(e.desc)));
    out := PrintWhen(out, e.state.Some?, "-s", Word(Given(e.state)));
    out := PrintWhen(out, e.uplinks > 1, "-u", Word(Print(e.uplinks)));
    var nodes := PrintSorted(e.nodes, e.uplinks);
    out := out + nodes;
    LinePieces(e);
  }

  lemma HeadText(e: Entry)
    ensures FieldsText([Word(DirWord(e)), Word(e.area)]) == (if e.passthru then "#" else "") + e.dir + " " + e.area + " "
  {
    var fs := [Word(DirWord(e)), Word(e.area)];
    assert fs[1..] == [Word(e.area)] && fs[1..][1..] == [];
    assert FieldsText(fs[1..]) == FieldText(Word(e.area)) + "";
  }

  lemma LinePieces(e: Entry)
    requires e.uplinks >= 1
    ensures LineText(e) == FieldsText([Word(DirWord(e)), Word(e.area)]) + FieldsText(ZoneField(e))
      + FieldsText(AddrField(e)) + FieldsText(LvlField(e)) + FieldsText(KeyField(e)) + FieldsText(PassiveField(e))
      + FieldsText(TimeField(e)) + FieldsText(ExpireNField(e)) + FieldsText(ExpireTField(e)) + FieldsText(DescField(e))
      + FieldsText(StateField(e)) + FieldsText(UplinksField(e)) + ListText(e.nodes, e.uplinks)
  {
    hide ListText, ZoneField, AddrField, LvlField, KeyField, PassiveField, TimeField,
         ExpireNField, ExpireTField, DescField, StateField, UplinksField, FieldsText;
    LineParts(e);
    var o := AddrField(e) + LvlField(e);
    FieldsTextBoth(AddrField(e), LvlField(e));
    FieldsTextBoth(o, KeyField(e));
    o := TimeField(e) + ExpireNField(e);
    FieldsTextBoth(TimeField(e), ExpireNField(e));
    FieldsTextBoth(o, ExpireTField(e));
    o := o + ExpireTField(e);
    FieldsTextBoth(o, DescField(e));
    o := o + DescField(e);
    FieldsTextBoth(o, StateField(e));
    o := o + StateField(e);
    FieldsTextBoth(o, UplinksField(e));
    var a, b := FieldsText(BeforePassive(e)), FieldsText(PassiveField(e));
    FlatPieces(FieldsText([Word(DirWord(e)), Word(e.area)]) + FieldsText(ZoneField(e)),
               FieldsText(AddrField(e)), FieldsText(LvlField(e)), FieldsText(KeyField(e)), b,
               FieldsText(TimeField(e)), FieldsText(ExpireNField(e)), FieldsText(ExpireTField(e)), FieldsText(DescField(e)),
               FieldsText(StateField(e)), FieldsText(UplinksField(e)), ListText(e.nodes, e.uplinks));
  }

  lemma FlatPieces(h: string, a: string, l: string, k: string, p: string,
                   t: string, x: string, y: string, d: string, s: string, u: string, list: string)
    ensures h + ((a + l + k) + p + (t + x + y + d + s + u)) + list
         == h + a + l + k + p + t + x + y + d + s + u + list
  {
  }

  class Areas {
    const conf: Config
    var firstLine: Option<string>
    var list: seq<Entry>

    constructor (c: Config)
      ensures conf == c && firstLine == None && list == []
    {
      conf, firstLine, list := c, None, [];
    }

    // areasbbs_init, given the text of the file
    method Init(text: string) returns (defined: bool)
      modifies this
      ensures text == "" ==> defined && firstLine == old(firstLine) && list == old(list)
      ensures text != "" ==> (defined <==> Entries(Lines(text)[1..], conf).Some?)
      ensures text != "" && defined ==>
        firstLine == Some(Lines(text)[0]) && list == old(list) + Entries(Lines(text)[1..], conf).value
    {
      hide LineLen, Entries;
      if text == "" {
        return true;
      }
      var k := Fgets(text);
      firstLine := Some(StripCrLf(text[..k]));
      assert Lines(text)[1..] == Lines(text[k..]);
      defined := ReadEntries(text[k..]);
    }

    // The lines after the first, one entry appended after the other.
    method ReadEntries(text: string) returns (defined: bool)
      modifies `list
      ensures defined <==> Entries(Lines(text), conf).Some?
      ensures defined ==> list == old(list) + Entries(Lines(text), conf).value
    {
      hide LineLen, ParseTokens, Tokens;
      var rest := text;
      ghost var read: seq<Entry> := [];
      assert old(list) + read == old(list);
      PrefixNothing(Entries(Lines(text), conf));
      while rest != ""
        invariant list == old(list) + read
        invariant Entries(Lines(text), conf) == Prefixed(read, Entries(Lines(rest), conf))
        decreases |rest|
      {
        var k := Fgets(rest);
        var p := ParseLine(StripCrLf(rest[..k]), conf);
        assert Lines(rest)[1..] == Lines(rest[k..]);
        if p.Undefined? {
          return false;
        }
        PrefixOne(read, if p.Parsed? then [p.e] else [], Entries(Lines(rest[k..]), conf));
        if p.Parsed? {
          list := list + [p.e];
          read := read + [p.e];
        } else {
          assert read + [] == read;
        }
        rest := rest[k..];
      }
      assert read + [] == read;
      return true;
    }

    method Print() returns (text: string)
      requires firstLine.Some? && Printable(list)
      ensures text == FileText(firstLine.value, list)
    {
      hide LineText;
      text := firstLine.value + "\n";
      var i := 0;
      while i < |list|
        invariant 0 <= i <= |list|
        invariant text + Body(list[i..]) == FileText(firstLine.value, list)
      {
        var line := PrintLine(list[i]);
        assert list[i..][1..] == list[i + 1..];
        assert text + (line + "\n" + Body(list[i + 1..])) == text + line + "\n" + Body(list[i + 1..]);
        text := text + line + "\n";
        i := i + 1;
      }
      assert text + "" == text;
    }
  }

  function Prefixed(a: seq<Entry>, r: Option<seq<Entry>>): Option<seq<Entry>> {
    if r.None? then None else Some(a + r.value)
  }

  lemma PrefixNothing(r: Option<seq<Entry>>)
    ensures Prefixed([], r) == r
  {
    assert r.Some? ==> [] + r.value == r.value;
  }

  lemma PrefixOne(a: seq<Entry>, b: seq<Entry>, r: Option<seq<Entry>>)
    ensures Prefixed(a, Prefixed(b, r)) == Prefixed(a + b, r)
  {
    assert r.Some? ==> a + (b + r.value) == a + b + r.value;
  }

  method Fgets(s: string) returns (k: nat)
    ensures k == LineLen(s, BUFFERSIZE - 1)
  {
    k := 0;
    ghost var room: nat := BUFFERSIZE - 1;
    while k < |s| && k < BUFFERSIZE - 1 && s[k] != '\n'
      invariant k <= |s| && k <= BUFFERSIZE - 1 && room == BUFFERSIZE - 1 - k
      invariant LineLen(s, BUFFERSIZE - 1) == k + LineLen(s[k..], room)
    {
      assert s[k..][1..] == s[k + 1..];
      k, room := k + 1, room - 1;
    }
    if k < |s| && k < BUFFERSIZE - 1 {
      k := k + 1;
    }
  }

  // ---- the whole file read back ----

  function Normals(es: seq<Entry>): (r: seq<Entry>)
    requires Printable(es)
    ensures |r| == |es| && forall i :: 0 <= i < |es| ==> r[i] == Normal(es[i])
  {
    seq(|es|, i requires 0 <= i < |es| => Normal(es[i]))
  }

  // A line that comes back as one line.
  predicate OneLine(s: string) {
    '\n' !in s && |s| < 32767 && (s != "" ==> s[|s| - 1] != '\r')
  }

  predicate Writable(e: Entry) {
    WellFormed(e) && '\n' !in LineText(e) && |LineText(e)| < 32767
  }

  predicate AllWritable(es: seq<Entry>)
    ensures AllWritable(es) ==> Printable(es)
  {
    forall i :: 0 <= i < |es| ==> Writable(es[i])
  }

  lemma {:induction false} LineLenIs(s: string, post: string, room: nat)
    requires '\n' !in s && |s| < room
    ensures LineLen(s + "\n" + post, room) == |s| + 1
  {
    if s != "" {
      assert (s + "\n" + post)[1..] == s[1..] + "\n" + post;
      LineLenIs(s[1..], post, room - 1);
    }
  }

  lemma FirstLine(s: string, post: string)
    requires OneLine(s)
    ensures Lines(s + "\n" + post) == [s] + Lines(post)
  {
    hide LineLen;
    var t := s + "\n" + post;
    LineLenIs(s, post, BUFFERSIZE - 1);
    assert t[..|s| + 1] == s + "\n" && (s + "\n")[..|s|] == s && t[|s| + 1..] == post;
  }

  lemma {:induction false} FieldsEnd(fs: seq<Field>)
    requires fs != []
    ensures var t := FieldsText(fs); t != "" && t[|t| - 1] == ' '
  {
    assert |fs| == 1 ==> FieldsText(fs[1..]) == "";
    if |fs| > 1 {
      FieldsEnd(fs[1..]);
    }
  }

  lemma LineIsOne(e: Entry)
    requires Writable(e)
    ensures OneLine(LineText(e))
  {
    hide ListText, FieldsText, Options;
    var fs, t := [Word(DirWord(e)), Word(e.area)] + Options(e), ListText(e.nodes, e.uplinks);
    FieldsEnd(fs);
    ListShape(e.nodes, e.uplinks);
    assert t != "" ==> t[|t| - 1] in t;
  }

  lemma {:induction false} BodyReadBack(es: seq<Entry>, c: Config)
    requires AllWritable(es)
    ensures Entries(Lines(Body(es)), c) == Some(Normals(es))
  {
    hide LineText, ParseTokens, Normal, Writable, WellFormed, OneLine, Tokens, Lines, Normals;
    if es == [] {
      NoLines();
      assert Normals(es) == [];
    } else {
      assert Writable(es[0]);
      assert WellFormed(es[0]) by { WritableIsWellFormed(es[0]); }
      LineIsOne(es[0]);
      var line := LineText(es[0]);
      FirstLine(line, Body(es[1..]));
      LineReadBack(es[0], c);
      BodyReadBack(es[1..], c);
      var lines, rest := Lines(Body(es)), Lines(Body(es[1..]));
      assert lines == [line] + rest && lines[1..] == rest;
      assert Normals(es) == [Normal(es[0])] + Normals(es[1..]);
    }
  }

  lemma NoLines()
    ensures Lines("") == []
  {
  }

  lemma WritableIsWellFormed(e: Entry)
    requires Writable(e)
    ensures WellFormed(e)
  {
  }

  // Reading a written file gives its first line and its entries, each in normal form.
  lemma FileReadBack(first: string, es: seq<Entry>, c: Config)
    requires OneLine(first) && AllWritable(es)
    ensures var lines := Lines(FileText(first, es));
      lines != [] && lines[0] == first && Entries(lines[1..], c) == Some(Normals(es))
  {
    hide OneLine, AllWritable, Lines, Normals;
    FirstLine(first, Body(es));
    BodyReadBack(es, c);
  }

  predicate Unbroken(es: seq<Entry>)
    requires Printable(es)
  {
    forall i :: 0 <= i < |es| ==> '\n' !in LineText(es[i])
  }

  lemma SameFirst(x: string, r: string, y: string, s: string)
    requires '\n' !in x && '\n' !in y && x + "\n" + r == y + "\n" + s
    ensures x == y && r == s
  {
    var t := x + "\n" + r;
    BreakAt(x, r);
    BreakAt(y, s);
    assert |x| == |y|;
    assert x == t[..|x|] && r == t[|x| + 1..];
  }

  lemma BreakAt(x: string, r: string)
    requires '\n' !in x
    ensures var t := x + "\n" + r;
      && t[|x|] == '\n' && (forall i :: 0 <= i < |x| ==> t[i] != '\n')
      && x == t[..|x|] && r == t[|x| + 1..]
  {
    assert forall i :: 0 <= i < |x| ==> x[i] in x;
  }

  lemma {:induction false} SameBody(xs: seq<Entry>, ys: seq<Entry>)
    requires Printable(xs) && Printable(ys) && Unbroken(xs) && Unbroken(ys) && |xs| == |ys|
    ensures Body(xs) == Body(ys) <==> forall i :: 0 <= i < |xs| ==> LineText(xs[i]) == LineText(ys[i])
  {
    hide LineText;
    if xs != [] {
      SameBody(xs[1..], ys[1..]);
      assert forall i :: 0 <= i < |xs| - 1 ==> xs[1..][i] == xs[i + 1] && ys[1..][i] == ys[i + 1];
      if Body(xs) == Body(ys) {
        SameFirst(LineText(xs[0]), Body(xs[1..]), LineText(ys[0]), Body(ys[1..]));
        assert forall i :: 0 < i < |xs| ==> xs[i] == xs[1..][i - 1] && ys[i] == ys[1..][i - 1];
      }
    }
  }

  // Reading back puts no line end into a line.
  lemma NormalUnbroken(e: Entry)
    requires WellFormed(e) && '\n' !in LineText(e)
    ensures '\n' !in LineText(Normal(e))
  {
    hide FieldsText, ListText, LineText, ZoneField, PassiveField, BeforePassive, AfterPassive, Normal,
      WellFormed, Visible, Kept;
    WellFormedLists(e);
    NothingLost(e);
    var n := Normal(e);
    NormalParts(e);
    LineParts(e);
    LineParts(n);
    ListShape(n.nodes, e.uplinks);
    ZoneUnbroken(n);
    PassiveUnbroken(n);
  }

  lemma ZoneUnbroken(e: Entry)
    ensures '\n' !in FieldsText(ZoneField(e))
  {
    hide Print, IsWord;
    if e.zone != -1 {
      var fs := ZoneField(e);
      NumberIsWord(e.zone);
      WordUnbroken(Print(e.zone));
      assert fs[1..] == [Word(Print(e.zone))] && fs[1..][1..] == [];
      assert fs[0] == Word("-z") && FieldText(fs[0]) == "-z ";
      assert FieldsText(fs[1..]) == Print(e.zone) + " " + "";
    }
  }

  lemma WordUnbroken(w: string)
    requires IsWord(w)
    ensures '\n' !in w
  {
  }

  lemma PassiveUnbroken(e: Entry)
    requires AllProper(e.passive)
    ensures '\n' !in FieldsText(PassiveField(e))
  {
    hide PassiveText, IsWord, Proper;
    PassiveFieldText(e);
    if e.passive != [] {
      PassiveReadBack(e.passive, 0);
      WordUnbroken(PassiveText(e.passive));
    }
  }

  // Written, read and written again, the file is byte for byte the same exactly when every
  // entry lost nothing and knew its zone, and no list of links ended in a repetition.
  lemma FileRewrite(first: string, es: seq<Entry>)
    requires AllWritable(es)
    ensures Printable(Normals(es))
    ensures FileText(first, Normals(es)) == FileText(first, es)
       <==> forall i :: 0 <= i < |es| ==> SameAgain(es[i])
  {
    hide LineText, SameAgain, Normal;
    var ns := Normals(es);
    forall i | 0 <= i < |es|
      ensures ns[i].uplinks >= 1 && '\n' !in LineText(ns[i]) && '\n' !in LineText(es[i])
      ensures LineText(ns[i]) == LineText(es[i]) <==> SameAgain(es[i])
    {
      assert Writable(es[i]);
      NormalParts(es[i]);
      NormalUnbroken(es[i]);
      RewriteIsIdentical(es[i]);
      SameAgainIs(es[i]);
    }
    SameBody(ns, es);
    var a, b := FileText(first, ns), FileText(first, es);
    assert a[|first| + 1..] == Body(ns) && b[|first| + 1..] == Body(es);
  }

  predicate SameAgain(e: Entry)
    requires e.uplinks >= 1
  {
    NoLoss(e) && e.zone != -1 && !TwinEnd(Arrange(e.nodes, e.uplinks))
  }

  lemma SameAgainIs(e: Entry)
    requires e.uplinks >= 1
    ensures SameAgain(e) <==> NoLoss(e) && e.zone != -1 && !TwinEnd(Arrange(e.nodes, e.uplinks))
  {
  }
}
