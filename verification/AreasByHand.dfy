// Lines of areas.bbs by their text: what the parts mean that the printer never writes (the
// flags, an option at the end of the line without its value, marks for passive links, addresses
// without a zone), and a line as it is printed.
module AreasByHand {
  import opened Common
  import opened FtnNode
  import opened NodeList
  import opened AreasBbs
  import opened AreasFile
  import opened CaseMap
  import Decimal

  datatype Opt = Flag(w: string) | Valued(w: string, v: string)

  // A word that starts with '-' is a flag, known or not, unless it takes a value.
  predicate IsOpt(o: Opt) {
    match o
    case Flag(w) => w != "" && w[0] == '-' && !TakesValue(w)
    case Valued(w, v) => TakesValue(w)
  }

  predicate AllOpts(os: seq<Opt>) {
    forall i :: 0 <= i < |os| ==> IsOpt(os[i])
  }

  function OptTokens(os: seq<Opt>): seq<string> {
    if os == [] then [] else
    (match os[0] case Flag(w) => [w] case Valued(w, v) => [w, v]) + OptTokens(os[1..])
  }

  // The same options without the flags.
  function ValuesOf(os: seq<Opt>): (vs: seq<Opt>)
    ensures AllOpts(os) ==> AllOpts(vs)
    ensures forall w :: Flag(w) !in vs
  {
    if os == [] then [] else (if os[0].Flag? then [] else [os[0]]) + ValuesOf(os[1..])
  }

  // Two entries that differ in the flags alone.
  predicate Flagged(e: Entry, x: Entry, passthru: bool, readonly: bool) {
    x == e.(passthru := passthru, readonly := readonly)
  }

  predicate SameEnd(o: Option<(Entry, seq<string>)>, x: Option<(Entry, seq<string>)>, passthru: bool, readonly: bool) {
    if o.None? then x.None? else x.Some? && x.value.1 == o.value.1 && Flagged(o.value.0, x.value.0, passthru, readonly)
  }

  lemma FlagsOf(y: Entry, z: Entry, p: bool, r: bool)
    requires Flagged(y, z, p, r)
    ensures z.passthru == p && z.readonly == r && z == y.(passthru := z.passthru, readonly := z.readonly)
  {
  }

  lemma SetOptionKeepsFlags(e: Entry, x: Entry, p: bool, r: bool, opt: string, v: string, c: Config)
    requires Flagged(e, x, p, r)
    ensures Flagged(SetOption(e, opt, v, c), SetOption(x, opt, v, c), p, r)
  {
    hide Anchored, AddPassive, SetOption;
    AnyOption(e, opt, v, c);
    AnyOption(x, opt, v, c);
  }

  // What an option's value is put into, as a function of that field before.
  lemma AnyOption(e: Entry, opt: string, v: string, c: Config)
    ensures SetOption(e, opt, v, c) ==
      e.(addr := if opt == "-a" then Anchored(ParsePartial(v), e.addr, c.defZone) else e.addr,
         zone := if opt == "-z" then Decimal.Atoi(v) else e.zone, lvl := if opt == "-l" then Decimal.Atoi(v) else e.lvl,
         key := if opt == "-k" then Some(v) else e.key, desc := if opt == "-d" then Some(v) else e.desc,
         state := if opt == "-s" then Some(v) else e.state,
         passive := if opt == "-p" then AddPassive(v, Start(c.zone), e.passive) else e.passive,
         time := if opt == "-t" then Decimal.Atoi(v) else e.time,
         expireN := if opt == "-e" then Decimal.Atoi(v) else e.expireN,
         expireT := if opt == "-n" then Decimal.Atoi(v) else e.expireT,
         uplinks := if opt == "-u" then Decimal.Atoi(v) else e.uplinks)
  {
    hide Anchored, AddPassive, ParsePartial, Decimal.Atoi, Start;
  }

  lemma OneFlag(e: Entry, x: Entry, p: bool, r: bool, w: string)
    requires Flagged(e, x, p, r)
    ensures Flagged(e, SetFlag(x, w), p || w == "-#", r || w == "-r")
  {
  }

  // What stands before the options' end.
  lemma FlagStep(e: Entry, w: string, rest: seq<string>, c: Config)
    requires w != "" && w[0] == '-' && !TakesValue(w)
    ensures ParseOptions(e, [w] + rest, c) == ParseOptions(SetFlag(e, w), rest, c)
  {
    hide SetOption, SetFlag, SetBare, TakesValue;
    assert ([w] + rest)[1..] == rest;
    OptionsUnfold(e, [w] + rest, c);
  }

  lemma ValueStep(e: Entry, w: string, v: string, rest: seq<string>, c: Config)
    requires TakesValue(w)
    ensures ParseOptions(e, [w, v] + rest, c) == ParseOptions(SetOption(e, w, v, c), rest, c)
  {
    hide SetOption, SetFlag, SetBare, TakesValue;
    assert ([w, v] + rest)[2..] == rest;
    OptionStep(e, [w, v] + rest, c);
  }

  lemma {:induction false} FlagsFirst(e: Entry, x: Entry, p: bool, r: bool, os: seq<Opt>, rest: seq<string>, c: Config)
    requires AllOpts(os) && Flagged(e, x, p, r)
    requires !IsOption(rest)
    ensures SameEnd(ParseOptions(e, OptTokens(ValuesOf(os)) + rest, c), ParseOptions(x, OptTokens(os) + rest, c),
                    p || Flag("-#") in os, r || Flag("-r") in os)
    decreases |os|
  {
    hide SetOption, SetFlag, SetBare, TakesValue, ParseOptions, Flagged, SameEnd, IsOption, OptTokens;
    if os == [] {
      NothingFlagged(e, x, p, r, rest, c);
    } else {
      var more, vs := OptTokens(os[1..]) + rest, OptTokens(ValuesOf(os[1..])) + rest;
      assert forall o :: o in os <==> o == os[0] || o in os[1..];
      match os[0] {
        case Flag(w) =>
          assert ValuesOf(os) == ValuesOf(os[1..]);
          OptFirst(os);
          Regroup([w], OptTokens(os[1..]), rest);
          FlagStep(x, w, more, c);
          OneFlag(e, x, p, r, w);
          FlagsFirst(e, SetFlag(x, w), p || w == "-#", r || w == "-r", os[1..], rest, c);
        case Valued(w, v) =>
          OptFirst(os);
          Regroup([w, v], OptTokens(os[1..]), rest);
          OneValue(os);
          Regroup([w, v], OptTokens(ValuesOf(os[1..])), rest);
          ValueStep(x, w, v, more, c);
          ValueStep(e, w, v, vs, c);
          SetOptionKeepsFlags(e, x, p, r, w, v, c);
          FlagsFirst(SetOption(e, w, v, c), SetOption(x, w, v, c), p, r, os[1..], rest, c);
      }
    }
  }

  lemma NothingFlagged(e: Entry, x: Entry, p: bool, r: bool, rest: seq<string>, c: Config)
    requires Flagged(e, x, p, r) && !IsOption(rest)
    ensures SameEnd(ParseOptions(e, OptTokens([]) + rest, c), ParseOptions(x, OptTokens([]) + rest, c), p, r)
  {
    assert OptTokens([]) + rest == rest;
    NoOptions(e, rest, c);
    NoOptions(x, rest, c);
  }

  lemma OptFirst(os: seq<Opt>)
    requires os != []
    ensures OptTokens(os) ==
            (match os[0] case Flag(w) => [w] case Valued(w, v) => [w, v]) + OptTokens(os[1..])
  {
  }

  lemma OneValue(os: seq<Opt>)
    requires os != [] && os[0].Valued?
    ensures OptTokens(ValuesOf(os)) == [os[0].w, os[0].v] + OptTokens(ValuesOf(os[1..]))
  {
    var vs := ValuesOf(os);
    assert vs[0] == os[0] && vs[1..] == ValuesOf(os[1..]);
  }

  lemma NoOptions(e: Entry, rest: seq<string>, c: Config)
    requires !IsOption(rest)
    ensures ParseOptions(e, rest, c) == Some((e, rest))
  {
  }

  lemma LinksKeepFlags(e: Entry, x: Entry, p: bool, r: bool, toks: seq<string>, c: Config)
    requires Flagged(e, x, p, r)
    ensures var (y, z) := (AddLinks(e, toks, c), AddLinks(x, toks, c));
      if y.Parsed? then z.Parsed? && Flagged(y.e, z.e, p, r) else z == y
  {
    hide AddNodes;
  }

  // The entry of a line is passed through exactly when its directory starts with '#' or it has
  // the flag -#, and read-only exactly when it has the flag -r; all else is that of the line
  // without the flags.
  lemma FlagsRead(dir: string, area: string, os: seq<Opt>, rest: seq<string>, c: Config)
    requires AllOpts(os) && !IsOption(rest)
    ensures var (with, without) := (ParseTokens([dir, area] + OptTokens(os) + rest, c),
                                    ParseTokens([dir, area] + OptTokens(ValuesOf(os)) + rest, c));
      if without.Parsed? then
        && with.Parsed?
        && with.e.passthru == ((dir != "" && dir[0] == '#') || Flag("-#") in os)
        && with.e.readonly == (Flag("-r") in os)
        && with.e == without.e.(passthru := with.e.passthru, readonly := with.e.readonly)
      else with == without
  {
    hide ParseTokens, ParseOptions, AddLinks, OptTokens, IsOption, Flagged, AllOpts, ValuesOf, Begin;
    var e, p, r := Begin(dir, area), (dir != "" && dir[0] == '#') || Flag("-#") in os, Flag("-r") in os;
    var ts, vs := OptTokens(os) + rest, OptTokens(ValuesOf(os)) + rest;
    Regroup([dir, area], OptTokens(os), rest);
    Regroup([dir, area], OptTokens(ValuesOf(os)), rest);
    AfterNames(dir, area, ts, c);
    AfterNames(dir, area, vs, c);
    Unflagged(dir, area);
    FlagsFirst(e, e, dir != "" && dir[0] == '#', false, os, rest, c);
    var o, x := ParseOptions(e, vs, c), ParseOptions(e, ts, c);
    if o.Some? {
      LinksKeepFlags(o.value.0, x.value.0, p, r, o.value.1, c);
      var y, z := AddLinks(o.value.0, o.value.1, c), AddLinks(x.value.0, o.value.1, c);
      if y.Parsed? {
        FlagsOf(y.e, z.e, p, r);
      }
    }
  }

  lemma AfterNames(dir: string, area: string, more: seq<string>, c: Config)
    ensures var o := ParseOptions(Begin(dir, area), more, c);
      ParseTokens([dir, area] + more, c) == if o.None? then Undefined else AddLinks(o.value.0, o.value.1, c)
  {
    hide ParseOptions, AddLinks, Begin;
    assert ([dir, area] + more)[2..] == more;
  }

  lemma Unflagged(dir: string, area: string)
    ensures var e := Begin(dir, area); Flagged(e, e, dir != "" && dir[0] == '#', false)
  {
  }

  // An option at the end of the line without its value: for the key, the description and the
  // state it means none, for passive links nothing; elsewhere the source reads a null pointer.
  lemma {:induction false} BareOption(e: Entry, os: seq<Opt>, w: string, c: Config)
    requires AllOpts(os) && TakesValue(w)
    ensures var (o, x) := (ParseOptions(e, OptTokens(os), c), ParseOptions(e, OptTokens(os) + [w], c));
      o.Some? && o.value.1 == []
      && var y := o.value.0;
         x == if w == "-k" then Some((y.(key := None), []))
              else if w == "-d" then Some((y.(desc := None), []))
              else if w == "-s" then Some((y.(state := None), []))
              else if w == "-p" then Some((y, []))
              else None
    decreases |os|
  {
    hide SetOption, SetFlag, TakesValue, ParseOptions;
    if os == [] {
      assert [] + [w] == [w];
      ValueOptions(w);
      OptionsUnfold(e, [w], c);
      NoOptions(e, [], c);
    } else {
      var more := OptTokens(os[1..]);
      match os[0] {
        case Flag(f) =>
          Regroup([f], more, [w]);
          FlagStep(e, f, more, c);
          FlagStep(e, f, more + [w], c);
          BareOption(SetFlag(e, f), os[1..], w, c);
        case Valued(f, v) =>
          Regroup([f, v], more, [w]);
          ValueStep(e, f, v, more, c);
          ValueStep(e, f, v, more + [w], c);
          BareOption(SetOption(e, f, v, c), os[1..], w, c);
      }
    }
  }

  // ---- links ----

  // An address, and whether its word starts with the mark that makes the one before it passive.
  datatype Link = Link(n: Node, marked: bool)

  // Each address as it differs from the one before.
  function LinkWords(ls: seq<Link>, prev: Node): seq<string> {
    if ls == [] then []
    else [(if ls[0].marked then "P" else "") + DiffText(ls[0].n, prev)] + LinkWords(ls[1..], ls[0].n)
  }

  // Addresses that can be written so.
  predicate LinksOk(ls: seq<Link>, prev: Node) {
    ls == [] || (Proper(ls[0].n) && !(SameNode(ls[0].n, prev) && ls[0].n.point == 0) && LinksOk(ls[1..], ls[0].n))
  }

  function AddressesOf(ls: seq<Link>): seq<Node> {
    if ls == [] then [] else [ls[0].n] + AddressesOf(ls[1..])
  }

  function PassiveOf(ls: seq<Link>, before: Node): seq<Node> {
    if ls == [] then [] else (if ls[0].marked then [before] else []) + PassiveOf(ls[1..], ls[0].n)
  }

  lemma {:induction false} LinksRead(ls: seq<Link>, node: Option<Node>, prev: Node, acc: Lists)
    requires LinksOk(ls, prev) && (node.Some? ==> node.value == prev) && (ls != [] && ls[0].marked ==> node.Some?)
    ensures AddNodes(LinkWords(ls, prev), node, prev, acc)
         == Some(Lists(acc.nodes + AddressesOf(ls), acc.passive + PassiveOf(ls, prev)))
    decreases |ls|
  {
    hide ParseDiff, DiffText;
    if ls == [] {
      assert acc.nodes + [] == acc.nodes && acc.passive + [] == acc.passive;
    } else {
      var n, marked := ls[0].n, ls[0].marked;
      var text, more := DiffText(n, prev), LinkWords(ls[1..], n);
      var words := LinkWords(ls, prev);
      DiffShape(n, prev);
      DiffReadBack(n, prev, prev);
      assert text[0] in text;
      assert marked ==> ("P" + text)[1..] == text;
      assert !marked ==> "" + text == text;
      assert words[1..] == more;
      var next := if marked then acc.(passive := acc.passive + [prev]) else acc;
      LinksRead(ls[1..], Some(n), n, next.(nodes := next.nodes + [n]));
      Regroup(acc.nodes, [n], AddressesOf(ls[1..]));
      Regroup(acc.passive, [prev], PassiveOf(ls[1..], n));
      assert [] + PassiveOf(ls[1..], n) == PassiveOf(ls[1..], n);
    }
  }

  // A line of addresses: the first one without its zone when it is the own one.
  lemma {:induction false} LineOfLinks(dir: string, area: string, ls: seq<Link>, c: Config)
    requires ls != [] && !ls[0].marked && LinksOk(ls, Node(c.zone, -1, -1, -1))
    ensures ParseTokens([dir, area] + LinkWords(ls, Node(c.zone, -1, -1, -1)), c) ==
            var through := dir != "" && dir[0] == '#';
            Parsed(Entry(through, false, if through then dir[1..] else dir, area, ls[0].n.zone,
                         Address(Node(-1, -1, -1, -1), ""), -1, None, None, None,
                         PassiveOf(ls, ls[0].n), 0, 0, 0, AddressesOf(ls), 1))
  {
    hide ParseTokens, ParseOptions, AddNodes, DiffText, LinkWords, LinksOk, AddressesOf, PassiveOf, IsOption, Begin,
      AddLinks;
    var prev := Node(c.zone, -1, -1, -1);
    var words := LinkWords(ls, prev);
    FirstWord(ls, prev);
    NoOptions(Begin(dir, area), words, c);
    AfterNames(dir, area, words, c);
    LinksRead(ls, None, prev, Lists([], []));
    assert [] + AddressesOf(ls) == AddressesOf(ls) && [] + PassiveOf(ls, prev) == PassiveOf(ls, prev);
    LinksPut(dir, area, words, c, Lists(AddressesOf(ls), PassiveOf(ls, prev)));
  }

  lemma FirstWord(ls: seq<Link>, prev: Node)
    requires ls != [] && !ls[0].marked && LinksOk(ls, prev)
    ensures !IsOption(LinkWords(ls, prev))
    ensures AddressesOf(ls) != [] && AddressesOf(ls)[0] == ls[0].n && PassiveOf(ls, prev) == PassiveOf(ls, ls[0].n)
  {
    hide DiffText;
    DiffShape(ls[0].n, prev);
    var text := DiffText(ls[0].n, prev);
    assert "" + text == text && text[0] in text;
  }

  lemma LinksPut(dir: string, area: string, words: seq<string>, c: Config, r: Lists)
    requires AddNodes(words, None, Node(c.zone, -1, -1, -1), Lists([], [])) == Some(r) && r.nodes != []
    ensures var through := dir != "" && dir[0] == '#';
      AddLinks(Begin(dir, area), words, c)
      == Parsed(Entry(through, false, if through then dir[1..] else dir, area, r.nodes[0].zone,
                      Address(Node(-1, -1, -1, -1), ""), -1, None, None, None, r.passive, 0, 0, 0, r.nodes, 1))
  {
    hide AddNodes;
  }

  // What is printed of an address with nothing in it, of all nodes and of all nodes of a net,
  lemma WideAddresses()
    ensures AddressText(Address(Node(-1, -1, -1, -1), "")) == "INVALID"
    ensures AddressText(Address(Node(-2, -2, -2, -2), "")) == "*"
    ensures AddressText(Address(Node(2, 5020, -2, -1), "")) == "2:5020/*"
  {
    hide Decimal.Print;
    PrintedNumbers();
  }

  // and of addresses with parts missing.
  lemma HalfAddresses()
    ensures AddressText(Address(Node(-1, 5020, 1, -1), "")) == "5020/1"
    ensures AddressText(Address(Node(2, -1, 1, 7), "")) == "2:1.7"
    ensures AddressText(Address(Node(2, 5020, -1, -1), "")) == "2:5020"
  {
    hide Decimal.Print;
    PrintedNumbers();
  }

  // "*", "all" or "world", in any case, is no address of a node and ends a list.
  lemma EverywhereEnds(s: string, prev: Node)
    requires s == "*" || SameButCase(s, "all") || SameButCase(s, "world")
    ensures ParsePartial(s) == Some(Address(Node(-2, -2, -2, -2), "")) && ParseDiff(s, prev) == None
  {
    hide SameButCase;
    LowerSame(s, "all");
    LowerSame(s, "world");
    assert Lower("all") == "all" && Lower("world") == "world" by { SmallWords(); }
  }

  lemma SmallWords()
    ensures Lower("all") == "all" && Lower("world") == "world"
  {
  }

  // The address of an area: its zone may be left out, and then is the default one, its point, and
  // then is 0, and its domain.
  lemma AddressOption(n: Node, domain: string, was: Address, defZone: int)
    requires Proper(n) && |domain| < 32
    ensures var at := if domain == "" then "" else "@" + domain;
      && Anchored(ParsePartial(Decimal.Print(n.zone) + ":" + Decimal.Print(n.net) + "/" + Decimal.Print(n.node) + at),
                  was, defZone)
         == Address(Node(n.zone, n.net, n.node, 0), domain)
      && Anchored(ParsePartial(Decimal.Print(n.zone) + ":" + Decimal.Print(n.net) + "/" + Decimal.Print(n.node)
                               + ("." + Decimal.Print(n.point) + at)), was, defZone)
         == Address(n, domain)
    ensures Anchored(ParsePartial(Decimal.Print(n.net) + "/" + Decimal.Print(n.node)), was, defZone)
         == Address(Node(defZone, n.net, n.node, 0), "")
  {
    hide ParsePartial, Decimal.Print;
    var at := if domain == "" then "" else "@" + domain;
    var z := Decimal.Print(n.zone) + ":" + Decimal.Print(n.net) + "/" + Decimal.Print(n.node);
    var s := Decimal.Print(n.net) + "/" + Decimal.Print(n.node);
    assert "" + at == at && FtnNode.Tail(None, domain) == at && FtnNode.Tail(None, "") == "" && s + "" == s;
    assert FtnNode.Tail(Some(n.point), domain) == "." + Decimal.Print(n.point) + at;
    FullReadBack(z + at, n, None, domain);
    FullReadBack(z + ("." + Decimal.Print(n.point) + at), n, Some(n.point), domain);
    NetReadBack(s, n, None);
  }

  // A time before 1970 is printed as an unsigned number of 64 bits.
  lemma EarlyTime(e: Entry)
    requires e.time < 0
    ensures FieldsText(TimeField(e)) == "-t " + Decimal.Print(e.time + 18446744073709551616) + " "
  {
    hide FieldsText, Decimal.Print;
    Option("-t", Decimal.Print(Unsigned(e.time)));
  }

  // ---- a line as it is printed ----

  lemma SmallNumber(n: nat)
    requires n < 10
    ensures Decimal.Print(n) == ["0123456789"[n]]
  {
  }

  lemma Number5020()
    ensures Decimal.Print(5020) == "5020"
  {
    assert Decimal.Digits(5) == "5" && Decimal.Digits(50) == "50" && Decimal.Digits(502) == "502";
  }

  // An entry with every option, and its line.
  function FullEntry(): Entry {
    Entry(true, true, "/spool/x", "AREA.X", 2, Address(Node(2, 5020, 9, 0), ""), 3, Some("k"), Some("a b"), Some("S"),
          [Node(2, 5020, 1, 0), Node(2, 5020, 1, 7)], 4, 5, 6,
          [Node(2, 5020, 8, 0), Node(3, 5020, 1, 0), Node(3, 5021, 4, 0), Node(3, 5020, 6, 0)], 2)
  }

  lemma PrintedNumbers()
    ensures forall n: nat :: n < 10 ==> Decimal.Print(n) == ["0123456789"[n]]
    ensures Decimal.Print(5020) == "5020" && Decimal.Print(5021) == "5021"
  {
    forall n: nat | n < 10 ensures Decimal.Print(n) == ["0123456789"[n]] {
      SmallNumber(n);
    }
    Number5020();
    assert Decimal.Digits(502) == "502" && Decimal.Digits(5021) == "502" + "1";
  }

  lemma PrintedDiffs()
    ensures DiffText(Node(2, 5020, 8, 0), Node(-1, -1, -1, -1)) == "2:5020/8"
    ensures DiffText(Node(3, 5020, 1, 0), Node(2, 5020, 8, 0)) == "3:5020/1"
    ensures DiffText(Node(3, 5020, 6, 0), Node(3, 5020, 1, 0)) == "6"
    ensures DiffText(Node(3, 5021, 4, 0), Node(3, 5020, 6, 0)) == "5021/4"
  {
    hide Decimal.Print;
    PrintedNumbers();
  }

  lemma PrintedOthers()
    ensures DiffText(Node(2, 5020, 1, 0), Node(-1, -1, -1, -1)) == "2:5020/1"
    ensures DiffText(Node(2, 5020, 1, 7), Node(2, 5020, 1, 0)) == ".7"
    ensures AddressText(Address(Node(2, 5020, 9, 0), "")) == "2:5020/9.0"
  {
    hide Decimal.Print;
    PrintedNumbers();
  }

  lemma PrintedLinks()
    ensures ListText(FullEntry().nodes, 2) == "2:5020/8 3:5020/1 6 5021/4"
  {
    hide DiffText, Arrange, Dedup, Diffs, Join;
    var a, b, c, d := Node(2, 5020, 8, 0), Node(3, 5020, 1, 0), Node(3, 5021, 4, 0), Node(3, 5020, 6, 0);
    Arranged(a, b, c, d);
    FourDiffs(a, b, d, c);
    PrintedDiffs();
    FourJoined(Diffs([a, b, d, c], NOWHERE), ' ');
    assert FullEntry().nodes == [a, b, c, d];
  }

  lemma Arranged(a: Node, b: Node, c: Node, d: Node)
    requires Compare(c, d) > 0
    ensures Arrange([a, b, c, d], 2) == [a, b, d, c]
  {
    hide Compare, Sort;
    SortedPair(c, d);
    assert [a, b, c, d][..2] == [a, b] && [a, b, c, d][2..] == [c, d];
  }

  lemma FourDiffs(a: Node, b: Node, c: Node, d: Node)
    requires a != b && b != c && c != d
    ensures Dedup([a, b, c, d]) == [a, b, c, d]
    ensures Diffs([a, b, c, d], NOWHERE) == [DiffText(a, NOWHERE), DiffText(b, a), DiffText(c, b), DiffText(d, c)]
  {
    hide DiffText;
    var l := [a, b, c, d];
    assert l[1..] == [b, c, d] && [b, c, d][1..] == [c, d] && [c, d][1..] == [d] && [d][1..] == [];
    assert Dedup([d]) == [d];
    assert Dedup([c, d]) == [c, d];
    assert Dedup([b, c, d]) == [b, c, d];
    assert Diffs([d], c) == [DiffText(d, c)];
    assert Diffs([c, d], b) == [DiffText(c, b), DiffText(d, c)];
    assert Diffs([b, c, d], a) == [DiffText(b, a), DiffText(c, b), DiffText(d, c)];
  }

  lemma SortedPair(a: Node, b: Node)
    requires Compare(a, b) > 0
    ensures Sort([a, b]) == [b, a]
  {
    assert [a, b][1..] == [b] && [b][1..] == [] && [b, a][1..] == [a];
    assert Sort([b]) == [b] && Insert(a, []) == [a];
    assert Sort([a, b]) == Insert(a, Sort([b])) == Insert(a, [b]) == [b] + Insert(a, []);
  }

  lemma FourJoined(w: seq<string>, sep: char)
    requires |w| == 4
    ensures Join(w, sep) == w[0] + [sep] + w[1] + [sep] + w[2] + [sep] + w[3]
  {
    assert w[1..][1..] == w[2..] && w[2..][1..] == w[3..] && w[3..] == [w[3]];
    assert Join(w[3..], sep) == w[3];
    assert Join(w[2..], sep) == w[2] + [sep] + w[3];
    assert Join(w[1..], sep) == w[1] + [sep] + (w[2] + [sep] + w[3]);
  }

  lemma PrintedPassive()
    ensures PassiveText(FullEntry().passive) == "2:5020/1,.7"
  {
    hide DiffText;
    PrintedOthers();
    var a, b := Node(2, 5020, 1, 0), Node(2, 5020, 1, 7);
    var l := FullEntry().passive;
    assert l == [a, b] && l[1..] == [b] && [b][1..] == [];
    assert Diffs([b], a) == [".7"] + [];
    assert Diffs(l, NOWHERE) == ["2:5020/1"] + Diffs([b], a) == ["2:5020/1", ".7"];
    assert ["2:5020/1", ".7"][1..] == [".7"];
  }

  lemma Option(opt: string, w: string)
    ensures FieldsText(When(true, opt, Word(w))) == opt + " " + w + " "
  {
    hide FieldsText;
    WhenText(true, opt, Word(w));
  }

  lemma FirstOptions()
    ensures var e := FullEntry();
      FieldsText([Word(DirWord(e)), Word(e.area)]) + FieldsText(ZoneField(e)) + FieldsText(AddrField(e))
        + FieldsText(LvlField(e)) + FieldsText(KeyField(e)) + FieldsText(PassiveField(e))
      == "#/spool/x AREA.X " + "-z 2 " + "-a 2:5020/9.0 " + "-l 3 " + "-k k " + "-p 2:5020/1,.7 "
  {
    hide FieldsText, PassiveText, AddressText, Decimal.Print, When, DiffText;
    var e := FullEntry();
    PrintedNumbers();
    PrintedOthers();
    PrintedPassive();
    HeadText(e);
    Option("-z", "2");
    Option("-a", "2:5020/9.0");
    Option("-l", "3");
    Option("-k", "k");
    Option("-p", "2:5020/1,.7");
    assert FieldsText([Word(DirWord(e)), Word(e.area)]) == "#/spool/x AREA.X ";
    assert FieldsText(ZoneField(e)) == "-z 2 " && FieldsText(AddrField(e)) == "-a 2:5020/9.0 ";
    assert FieldsText(LvlField(e)) == "-l 3 " && FieldsText(KeyField(e)) == "-k k ";
    assert FieldsText(PassiveField(e)) == "-p 2:5020/1,.7 ";
  }

  lemma LastOptions()
    ensures var e := FullEntry();
      FieldsText(TimeField(e)) + FieldsText(ExpireNField(e)) + FieldsText(ExpireTField(e)) + FieldsText(DescField(e))
        + FieldsText(StateField(e)) + FieldsText(UplinksField(e))
      == "-t 4 " + "-e 5 " + "-n 6 " + "-d \"a b\" " + "-s S " + "-u 2 "
  {
    hide FieldsText, Decimal.Print, When;
    var e := FullEntry();
    PrintedNumbers();
    Option("-t", "4");
    Option("-e", "5");
    Option("-n", "6");
    WhenText(true, "-d", Text("a b"));
    Option("-s", "S");
    Option("-u", "2");
    assert FieldsText(TimeField(e)) == "-t 4 " && FieldsText(ExpireNField(e)) == "-e 5 ";
    assert FieldsText(ExpireTField(e)) == "-n 6 " && FieldsText(DescField(e)) == "-d \"a b\" ";
    assert FieldsText(StateField(e)) == "-s S " && FieldsText(UplinksField(e)) == "-u 2 ";
  }

  lemma PrintedLine()
    ensures LineText(FullEntry()) ==
            ("#/spool/x AREA.X " + "-z 2 " + "-a 2:5020/9.0 " + "-l 3 " + "-k k " + "-p 2:5020/1,.7 ")
            + ("-t 4 " + "-e 5 " + "-n 6 " + "-d \"a b\" " + "-s S " + "-u 2 ") + "2:5020/8 3:5020/1 6 5021/4"
  {
    hide LineText, FieldsText, ListText, ZoneField, AddrField, LvlField, KeyField, PassiveField, TimeField, ExpireNField,
      ExpireTField, DescField, StateField, UplinksField, DirWord;
    LinePieces(FullEntry());
    FirstOptions();
    LastOptions();
    PrintedLinks();
    SixMore(FieldsText([Word(DirWord(FullEntry())), Word(FullEntry().area)]) + FieldsText(ZoneField(FullEntry()))
            + FieldsText(AddrField(FullEntry())) + FieldsText(LvlField(FullEntry())) + FieldsText(KeyField(FullEntry()))
            + FieldsText(PassiveField(FullEntry())),
            FieldsText(TimeField(FullEntry())), FieldsText(ExpireNField(FullEntry())), FieldsText(ExpireTField(FullEntry())),
            FieldsText(DescField(FullEntry())), FieldsText(StateField(FullEntry())), FieldsText(UplinksField(FullEntry())));
  }

  lemma SixMore(h: string, t: string, x: string, y: string, d: string, s: string, u: string)
    ensures h + t + x + y + d + s + u == h + (t + x + y + d + s + u)
  {
  }
}
