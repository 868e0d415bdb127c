// The areas.bbs file: its lines as printed and as parsed.
module AreasBbs {
  import opened Common
  import opened FtnNode
  import opened StrTok
  import opened NodeList
  import opened Uplinks
  import opened Decimal

  datatype Entry = Entry(
    passthru: bool, readonly: bool, dir: string, area: string, zone: int, addr: Address, lvl: int,
    key: Option<string>, desc: Option<string>, state: Option<string>, passive: seq<Node>,
    time: int, expireN: int, expireT: int, nodes: seq<Node>, uplinks: int)

  // The zones the configuration supplies: cf_zone and cf_defzone.
  datatype Config = Config(zone: int, defZone: int)

  const NO_ADDRESS := Address(NOWHERE, "")

  // areasbbs_new
  const FRESH := Entry(false, false, "", "", -1, NO_ADDRESS, -1, None, None, None, [], 0, 0, 0, [], 1)

  // ---- printing ----

  // One piece of a line, followed by a blank.
  datatype Field = Word(w: string) | Text(d: string)

  function FieldText(f: Field): string {
    (match f case Word(w) => w case Text(d) => Quoted(d)) + " "
  }

  function FieldToken(f: Field): string {
    match f case Word(w) => w case Text(d) => d
  }

  function FieldsText(fs: seq<Field>): string {
    if fs == [] then "" else FieldText(fs[0]) + FieldsText(fs[1..])
  }

  function FieldTokens(fs: seq<Field>): (ts: seq<string>)
    ensures |ts| == |fs|
  {
    if fs == [] then [] else [FieldToken(fs[0])] + FieldTokens(fs[1..])
  }

  function When(b: bool, opt: string, f: Field): seq<Field> {
    if b then [Word(opt), f] else []
  }

  function Given(v: Option<string>): string { v.GetOr("") }

  // What %lu shows of a time.
  function Unsigned(t: int): int { if t < 0 then t + 0x1_0000_0000_0000_0000 else t }

  function ZoneField(e: Entry): seq<Field> { When(e.zone != -1, "-z", Word(Print(e.zone))) }
  function AddrField(e: Entry): seq<Field> { When(e.addr.n.zone != -1, "-a", Word(AddressText(e.addr))) }
  function LvlField(e: Entry): seq<Field> { When(e.lvl != -1, "-l", Word(Print(e.lvl))) }
  function KeyField(e: Entry): seq<Field> { When(e.key.Some?, "-k", Word(Given(e.key))) }
  function PassiveField(e: Entry): seq<Field> { When(e.passive != [], "-p", Word(PassiveText(e.passive))) }
  function TimeField(e: Entry): seq<Field> { When(true, "-t", Word(Print(Unsigned(e.time)))) }
  function ExpireNField(e: Entry): seq<Field> { When(e.expireN != 0, "-e", Word(Print(e.expireN))) }
  function ExpireTField(e: Entry): seq<Field> { When(e.expireT != 0, "-n", Word(Print(e.expireT))) }
  function DescField(e: Entry): seq<Field> { When(e.desc.Some?, "-d", Text(Given(e.desc))) }
  function StateField(e: Entry): seq<Field> { When(e.state.Some?, "-s", Word(Given(e.state))) }
  function UplinksField(e: Entry): seq<Field> { When(e.uplinks > 1, "-u", Word(Print(e.uplinks))) }

  function Options(e: Entry): seq<Field> {
    ZoneField(e) + AddrField(e) + LvlField(e) + KeyField(e) + PassiveField(e) + TimeField(e)
    + ExpireNField(e) + ExpireTField(e) + DescField(e) + StateField(e) + UplinksField(e)
  }

  function DirWord(e: Entry): string { (if e.passthru then "#" else "") + e.dir }

  function LineText(e: Entry): string
    requires e.uplinks >= 1
  {
    FieldsText([Word(DirWord(e)), Word(e.area)] + Options(e)) + ListText(e.nodes, e.uplinks)
  }

  // ---- parsing ----

  predicate TakesValue(opt: string) {
    opt in ["-a", "-z", "-l", "-k", "-d", "-s", "-p", "-t", "-e", "-n", "-u"]
  }

  // What an option with its value does to the entry.
  function SetOption(e: Entry, opt: string, v: string, c: Config): Entry {
    if opt == "-a" then e.(addr := Anchored(ParsePartial(v), e.addr, c.defZone))
    else if opt == "-z" then e.(zone := Atoi(v))
    else if opt == "-l" then e.(lvl := Atoi(v))
    else if opt == "-k" then e.(key := Some(v))
    else if opt == "-d" then e.(desc := Some(v))
    else if opt == "-s" then e.(state := Some(v))
    else if opt == "-p" then e.(passive := AddPassive(v, Start(c.zone), e.passive))
    else if opt == "-t" then e.(time := Atoi(v))
    else if opt == "-e" then e.(expireN := Atoi(v))
    else if opt == "-n" then e.(expireT := Atoi(v))
    else if opt == "-u" then e.(uplinks := Atoi(v))
    else e
  }

  // An option at the end of the line, without its value: None where a null pointer is read.
  function SetBare(e: Entry, opt: string): Option<Entry> {
    if opt == "-k" then Some(e.(key := None))
    else if opt == "-d" then Some(e.(desc := None))
    else if opt == "-s" then Some(e.(state := None))
    else if opt == "-p" then Some(e)
    else None
  }

  function SetFlag(e: Entry, opt: string): Entry {
    if opt == "-#" then e.(passthru := true)
    else if opt == "-r" then e.(readonly := true)
    else e
  }

  predicate IsOption(toks: seq<string>) {
    toks != [] && toks[0] != "" && toks[0][0] == '-'
  }

  // The option loop: the entry filled in and the tokens from the first that is no option.
  function ParseOptions(e: Entry, toks: seq<string>, c: Config): Option<(Entry, seq<string>)>
    decreases |toks|
  {
    if !IsOption(toks) then Some((e, toks))
    else if !TakesValue(toks[0]) then ParseOptions(SetFlag(e, toks[0]), toks[1..], c)
    else if |toks| >= 2 then ParseOptions(SetOption(e, toks[0], toks[1], c), toks[2..], c)
    else match SetBare(e, toks[0])
      case None => None
      case Some(x) => Some((x, []))
  }

  function WithZone(e: Entry): Entry {
    if e.zone != -1 then e else e.(zone := if e.nodes != [] then e.nodes[0].zone else 0)
  }

  datatype Parsed = NoEntry | Undefined | Parsed(e: Entry)

  function Begin(dir: string, area: string): Entry {
    if dir != "" && dir[0] == '#' then FRESH.(passthru := true, dir := dir[1..], area := area)
    else FRESH.(dir := dir, area := area)
  }

  function AddLinks(e: Entry, toks: seq<string>, c: Config): Parsed {
    var ls := AddNodes(toks, None, Start(c.zone), Lists(e.nodes, e.passive));
    if ls.None? then Undefined else Parsed(WithZone(e.(nodes := ls.value.nodes, passive := ls.value.passive)))
  }

  function ParseTokens(toks: seq<string>, c: Config): Parsed {
    if |toks| < 2 then NoEntry
    else
      var o := ParseOptions(Begin(toks[0], toks[1]), toks[2..], c);
      if o.None? then Undefined else AddLinks(o.value.0, o.value.1, c)
  }

  // ---- reading back what was printed ----

  // What the writer relies on: words without blanks and quotes where words are printed.
  predicate WellFormed(e: Entry) {
    && (if e.passthru then IsWord("#" + e.dir) else IsWord(e.dir) && e.dir[0] != '#')
    && IsWord(e.area)
    && (e.addr.n.zone != -1 ==> Proper(e.addr.n) && |e.addr.domain| < MAXDOMAIN && IsWord(AddressText(e.addr)))
    && (e.key.Some? ==> IsWord(e.key.value))
    && (e.state.Some? ==> IsWord(e.state.value))
    && (e.desc.Some? ==> Quotable(e.desc.value))
    && AllProper(e.passive) && AllProper(e.nodes) && e.time >= 0 && e.uplinks >= 1
  }

  // The nodes as printed: uplinks first, the rest sorted, repetitions merged.
  function Listed(e: Entry): seq<Node>
    requires e.uplinks >= 1
  {
    Dedup(Arrange(e.nodes, e.uplinks))
  }

  // What reading the printed line gives.
  function Normal(e: Entry): Entry
    requires e.uplinks >= 1
  {
    var nodes := Visible(Listed(e), NOWHERE);
    e.(readonly := false,
       zone := if e.zone != -1 then e.zone else if nodes == [] then 0 else nodes[0].zone,
       addr := if e.addr.n.zone == -1 then NO_ADDRESS else e.addr,
       passive := Kept(e.passive, NOWHERE),
       nodes := nodes)
  }

  lemma NumberIsWord(v: int)
    ensures IsWord(Print(v))
  {
  }

  predicate Readable(f: Field) {
    match f case Word(w) => IsWord(w) case Text(d) => Quotable(d)
  }

  lemma {:induction false} FieldsReadBack(fs: seq<Field>, rest: string)
    requires AllReadable(fs)
    ensures Tokens(FieldsText(fs) + rest) == FieldTokens(fs) + Tokens(rest)
  {
    hide Tokens, IsWord, Quotable, Quoted;
    if fs == [] {
      assert "" + rest == rest && [] + Tokens(rest) == Tokens(rest);
    } else {
      var post := FieldsText(fs[1..]) + rest;
      FieldsReadBack(fs[1..], rest);
      assert FieldsText(fs) + rest == FieldText(fs[0]) + post;
      match fs[0] {
        case Word(w) => WordReadBack(w, post);
        case Text(d) => QuotedToken(d, post);
      }
      assert [FieldToken(fs[0])] + (FieldTokens(fs[1..]) + Tokens(rest))
          == [FieldToken(fs[0])] + FieldTokens(fs[1..]) + Tokens(rest);
    }
  }

  // The effect of printed options, one after the other.
  function Apply(e: Entry, fs: seq<Field>, c: Config): Entry
    requires |fs| % 2 == 0
    decreases |fs|
  {
    if fs == [] then e else Apply(SetOption(e, FieldToken(fs[0]), FieldToken(fs[1]), c), fs[2..], c)
  }

  // Option and value in turn.
  predicate Paired(fs: seq<Field>)
    ensures Paired(fs) ==> |fs| % 2 == 0
    decreases |fs|
  {
    fs == [] || (|fs| >= 2 && TakesValue(FieldToken(fs[0])) && Paired(fs[2..]))
  }

  lemma ValueOptions(opt: string)
    requires TakesValue(opt)
    ensures opt != "" && opt[0] == '-'
  {
  }

  lemma OptionStep(e: Entry, toks: seq<string>, c: Config)
    requires |toks| >= 2 && TakesValue(toks[0])
    ensures ParseOptions(e, toks, c) == ParseOptions(SetOption(e, toks[0], toks[1], c), toks[2..], c)
  {
    hide SetOption, SetFlag, SetBare, TakesValue;
    ValueOptions(toks[0]);
  }

  lemma {:induction false} OptionsApplied(e: Entry, fs: seq<Field>, rest: seq<string>, c: Config)
    requires Paired(fs) && !IsOption(rest)
    ensures ParseOptions(e, FieldTokens(fs) + rest, c) == Some((Apply(e, fs, c), rest))
    decreases |fs|
  {
    hide SetOption, TakesValue, SetFlag, SetBare;
    if fs == [] {
      assert FieldTokens(fs) + rest == rest;
    } else {
      hide ParseOptions, FieldTokens;
      TokensByTwo(fs);
      var ts := FieldTokens(fs) + rest;
      assert ts[0] == FieldToken(fs[0]) && ts[1] == FieldToken(fs[1]);
      assert ts[2..] == FieldTokens(fs[2..]) + rest;
      OptionStep(e, ts, c);
      OptionsApplied(SetOption(e, ts[0], ts[1], c), fs[2..], rest, c);
    }
  }

  lemma TokensByTwo(fs: seq<Field>)
    requires |fs| >= 2
    ensures FieldTokens(fs) == [FieldToken(fs[0]), FieldToken(fs[1])] + FieldTokens(fs[2..])
  {
    assert fs[1..][1..] == fs[2..];
  }

  lemma {:induction false} PairedBoth(a: seq<Field>, b: seq<Field>)
    requires Paired(a) && Paired(b)
    ensures Paired(a + b)
    decreases |a|
  {
    hide TakesValue;
    if a == [] {
      assert a + b == b;
    } else {
      assert (a + b)[2..] == a[2..] + b;
      PairedBoth(a[2..], b);
    }
  }

  lemma {:induction false} ApplyBoth(e: Entry, a: seq<Field>, b: seq<Field>, c: Config)
    requires |a| % 2 == 0 && |b| % 2 == 0
    ensures |a + b| % 2 == 0 && Apply(e, a + b, c) == Apply(Apply(e, a, c), b, c)
    decreases |a|
  {
    hide SetOption;
    if a == [] {
      assert a + b == b;
    } else {
      assert (a + b)[2..] == a[2..] + b;
      ApplyBoth(SetOption(e, FieldToken(a[0]), FieldToken(a[1]), c), a[2..], b, c);
    }
  }

  lemma WhenApplied(e: Entry, b: bool, opt: string, f: Field, c: Config)
    requires TakesValue(opt)
    ensures Paired(When(b, opt, f))
    ensures Apply(e, When(b, opt, f), c) == if b then SetOption(e, opt, FieldToken(f), c) else e
  {
    hide SetOption, TakesValue;
    var fs := When(b, opt, f);
    assert b ==> fs[2..] == [];
  }

  // The entry after some fields of the line, x being the entry before them.
  predicate Gives(x: Entry, fs: seq<Field>, c: Config, y: Entry) {
    Paired(fs) && Apply(x, fs, c) == y
  }

  lemma GivesBoth(x: Entry, a: seq<Field>, b: seq<Field>, c: Config, y: Entry, z: Entry)
    requires Gives(x, a, c, y) && Gives(y, b, c, z)
    ensures Gives(x, a + b, c, z)
  {
    hide Apply, Paired;
    PairedBoth(a, b);
    ApplyBoth(x, a, b, c);
  }

  lemma SetNumbers(x: Entry, v: string, c: Config)
    ensures SetOption(x, "-z", v, c) == x.(zone := Atoi(v)) && TakesValue("-z")
    ensures SetOption(x, "-l", v, c) == x.(lvl := Atoi(v)) && TakesValue("-l")
    ensures SetOption(x, "-t", v, c) == x.(time := Atoi(v)) && TakesValue("-t")
  {
    hide Atoi, Anchored, ParsePartial, AddPassive;
  }

  lemma SetMoreNumbers(x: Entry, v: string, c: Config)
    ensures SetOption(x, "-e", v, c) == x.(expireN := Atoi(v)) && TakesValue("-e")
    ensures SetOption(x, "-n", v, c) == x.(expireT := Atoi(v)) && TakesValue("-n")
    ensures SetOption(x, "-u", v, c) == x.(uplinks := Atoi(v)) && TakesValue("-u")
  {
    hide Atoi, Anchored, ParsePartial, AddPassive;
  }

  lemma SetWords(x: Entry, v: string, c: Config)
    ensures SetOption(x, "-a", v, c) == x.(addr := Anchored(ParsePartial(v), x.addr, c.defZone)) && TakesValue("-a")
    ensures SetOption(x, "-k", v, c) == x.(key := Some(v)) && TakesValue("-k")
    ensures SetOption(x, "-p", v, c) == x.(passive := AddPassive(v, Start(c.zone), x.passive)) && TakesValue("-p")
    ensures SetOption(x, "-d", v, c) == x.(desc := Some(v)) && TakesValue("-d")
    ensures SetOption(x, "-s", v, c) == x.(state := Some(v)) && TakesValue("-s")
  {
    hide Atoi, Anchored, ParsePartial, AddPassive;
  }

  lemma NumbersApplied(x: Entry, e: Entry, c: Config)
    ensures x.zone == -1 ==> Gives(x, ZoneField(e), c, x.(zone := e.zone))
    ensures x.lvl == -1 ==> Gives(x, LvlField(e), c, x.(lvl := e.lvl))
    ensures e.time >= 0 ==> Gives(x, TimeField(e), c, x.(time := e.time))
    ensures x.expireN == 0 ==> Gives(x, ExpireNField(e), c, x.(expireN := e.expireN))
    ensures x.expireT == 0 ==> Gives(x, ExpireTField(e), c, x.(expireT := e.expireT))
    ensures x.uplinks == 1 && e.uplinks >= 1 ==> Gives(x, UplinksField(e), c, x.(uplinks := e.uplinks))
  {
    hide Atoi, Print, When, Apply, Paired, SetOption, TakesValue;
    SetNumbers(x, Print(e.zone), c);
    SetNumbers(x, Print(e.lvl), c);
    SetNumbers(x, Print(e.time), c);
    SetMoreNumbers(x, Print(e.expireN), c);
    SetMoreNumbers(x, Print(e.expireT), c);
    SetMoreNumbers(x, Print(e.uplinks), c);
    WhenApplied(x, e.zone != -1, "-z", Word(Print(e.zone)), c);
    WhenApplied(x, e.lvl != -1, "-l", Word(Print(e.lvl)), c);
    WhenApplied(x, true, "-t", Word(Print(Unsigned(e.time))), c);
    WhenApplied(x, e.expireN != 0, "-e", Word(Print(e.expireN)), c);
    WhenApplied(x, e.expireT != 0, "-n", Word(Print(e.expireT)), c);
    WhenApplied(x, e.uplinks > 1, "-u", Word(Print(e.uplinks)), c);
    AtoiPrint(e.zone);
    AtoiPrint(e.lvl);
    AtoiPrint(e.time);
    AtoiPrint(e.expireN);
    AtoiPrint(e.expireT);
    AtoiPrint(e.uplinks);
  }

  lemma WordsApplied(x: Entry, e: Entry, c: Config)
    requires WellFormed(e)
    ensures x.addr == NO_ADDRESS ==>
      Gives(x, AddrField(e), c, x.(addr := if e.addr.n.zone == -1 then NO_ADDRESS else e.addr))
    ensures x.key == None ==> Gives(x, KeyField(e), c, x.(key := e.key))
    ensures x.passive == [] ==> Gives(x, PassiveField(e), c, x.(passive := Kept(e.passive, NOWHERE)))
    ensures x.desc == None ==> Gives(x, DescField(e), c, x.(desc := e.desc))
    ensures x.state == None ==> Gives(x, StateField(e), c, x.(state := e.state))
  {
    hide When, Apply, Paired, IsWord, Quotable, Anchored, ParsePartial, AddressText, PassiveText, AddPassive,
         SetOption, TakesValue;
    SetWords(x, AddressText(e.addr), c);
    SetWords(x, Given(e.key), c);
    SetWords(x, PassiveText(e.passive), c);
    SetWords(x, Given(e.desc), c);
    SetWords(x, Given(e.state), c);
    WhenApplied(x, e.addr.n.zone != -1, "-a", Word(AddressText(e.addr)), c);
    WhenApplied(x, e.key.Some?, "-k", Word(Given(e.key)), c);
    WhenApplied(x, e.passive != [], "-p", Word(PassiveText(e.passive)), c);
    WhenApplied(x, e.desc.Some?, "-d", Text(Given(e.desc)), c);
    WhenApplied(x, e.state.Some?, "-s", Word(Given(e.state)), c);
    if e.addr.n.zone != -1 {
      AddressReadBack(e.addr, NO_ADDRESS, c.defZone);
    }
    if e.passive != [] {
      PassiveReadBack(e.passive, c.zone);
    }
  }

  // Everything but the nodes.
  function Heading(e: Entry): Entry {
    FRESH.(passthru := e.passthru, dir := e.dir, area := e.area, zone := e.zone,
           addr := if e.addr.n.zone == -1 then NO_ADDRESS else e.addr, lvl := e.lvl, key := e.key, desc := e.desc,
           state := e.state, passive := Kept(e.passive, NOWHERE), time := e.time, expireN := e.expireN,
           expireT := e.expireT, uplinks := e.uplinks)
  }

  lemma OptionsGive(e: Entry, c: Config)
    requires WellFormed(e)
    ensures Gives(Begin(DirWord(e), e.area), Options(e), c, Heading(e))
  {
    hide Gives, WellFormed, Kept, ZoneField, AddrField, LvlField, KeyField, PassiveField, TimeField,
         ExpireNField, ExpireTField, DescField, StateField, UplinksField;
    var addr := if e.addr.n.zone == -1 then NO_ADDRESS else e.addr;
    var x0 := FRESH.(passthru := e.passthru, dir := e.dir, area := e.area);
    BeginGives(e);
    var x1 := x0.(zone := e.zone);
    NumbersApplied(x0, e, c);
    var x2 := x1.(addr := addr);
    WordsApplied(x1, e, c);
    GivesBoth(x0, ZoneField(e), AddrField(e), c, x1, x2);
    var x3 := x2.(lvl := e.lvl);
    NumbersApplied(x2, e, c);
    var o3 := ZoneField(e) + AddrField(e);
    GivesBoth(x0, o3, LvlField(e), c, x2, x3);
    var x4 := x3.(key := e.key);
    WordsApplied(x3, e, c);
    var o4 := o3 + LvlField(e);
    GivesBoth(x0, o4, KeyField(e), c, x3, x4);
    var x5 := x4.(passive := Kept(e.passive, NOWHERE));
    WordsApplied(x4, e, c);
    var o5 := o4 + KeyField(e);
    GivesBoth(x0, o5, PassiveField(e), c, x4, x5);
    var x6 := x5.(time := e.time);
    NumbersApplied(x5, e, c);
    assert e.time >= 0 && e.uplinks >= 1 by { NumbersFit(e); }
    var o6 := o5 + PassiveField(e);
    GivesBoth(x0, o6, TimeField(e), c, x5, x6);
    OptionsGiveRest(e, c, x0, o6 + TimeField(e), x6);
  }

  lemma NumbersFit(e: Entry)
    requires WellFormed(e)
    ensures e.time >= 0 && e.uplinks >= 1
  {
  }

  lemma BeginGives(e: Entry)
    requires WellFormed(e)
    ensures Begin(DirWord(e), e.area) == FRESH.(passthru := e.passthru, dir := e.dir, area := e.area)
  {
    assert e.passthru ==> DirWord(e)[1..] == e.dir;
    assert !e.passthru ==> DirWord(e) == e.dir;
  }

  lemma OptionsGiveRest(e: Entry, c: Config, x0: Entry, o7: seq<Field>, x6: Entry)
    requires WellFormed(e) && Gives(x0, o7, c, x6)
    requires x6.expireN == 0 && x6.expireT == 0 && x6.desc == None && x6.state == None && x6.uplinks == 1
    ensures Gives(x0, o7 + ExpireNField(e) + ExpireTField(e) + DescField(e) + StateField(e) + UplinksField(e), c,
      x6.(expireN := e.expireN, expireT := e.expireT, desc := e.desc, state := e.state, uplinks := e.uplinks))
  {
    hide Gives, WellFormed, ExpireNField, ExpireTField, DescField, StateField, UplinksField;
    NumbersFit(e);
    var x7 := x6.(expireN := e.expireN);
    NumbersApplied(x6, e, c);
    GivesBoth(x0, o7, ExpireNField(e), c, x6, x7);
    var x8 := x7.(expireT := e.expireT);
    NumbersApplied(x7, e, c);
    var o8 := o7 + ExpireNField(e);
    GivesBoth(x0, o8, ExpireTField(e), c, x7, x8);
    var x9 := x8.(desc := e.desc);
    WordsApplied(x8, e, c);
    var o9 := o8 + ExpireTField(e);
    GivesBoth(x0, o9, DescField(e), c, x8, x9);
    var x10 := x9.(state := e.state);
    WordsApplied(x9, e, c);
    var o10 := o9 + DescField(e);
    GivesBoth(x0, o10, StateField(e), c, x9, x10);
    NumbersApplied(x10, e, c);
    GivesBoth(x0, o10 + StateField(e), UplinksField(e), c, x10, x10.(uplinks := e.uplinks));
  }

  predicate AllReadable(fs: seq<Field>) {
    forall i :: 0 <= i < |fs| ==> Readable(fs[i])
  }

  lemma ReadableWhen(b: bool, opt: string, f: Field)
    requires IsWord(opt) && (b ==> Readable(f))
    ensures AllReadable(When(b, opt, f))
  {
    hide IsWord;
  }

  lemma ReadableNumbers(e: Entry)
    ensures AllReadable(ZoneField(e)) && AllReadable(LvlField(e)) && AllReadable(TimeField(e))
    ensures AllReadable(ExpireNField(e)) && AllReadable(ExpireTField(e)) && AllReadable(UplinksField(e))
  {
    hide IsWord, Print, AllReadable, When;
    OptionWords();
    NumberIsWord(e.zone);
    ReadableWhen(e.zone != -1, "-z", Word(Print(e.zone)));
    NumberIsWord(e.lvl);
    ReadableWhen(e.lvl != -1, "-l", Word(Print(e.lvl)));
    NumberIsWord(Unsigned(e.time));
    ReadableWhen(true, "-t", Word(Print(Unsigned(e.time))));
    NumberIsWord(e.expireN);
    ReadableWhen(e.expireN != 0, "-e", Word(Print(e.expireN)));
    NumberIsWord(e.expireT);
    ReadableWhen(e.expireT != 0, "-n", Word(Print(e.expireT)));
    NumberIsWord(e.uplinks);
    ReadableWhen(e.uplinks > 1, "-u", Word(Print(e.uplinks)));
  }

  lemma ReadableWords(e: Entry)
    requires WellFormed(e)
    ensures AllReadable(AddrField(e)) && AllReadable(KeyField(e)) && AllReadable(PassiveField(e))
    ensures AllReadable(DescField(e)) && AllReadable(StateField(e))
  {
    hide IsWord, AllReadable, When, Quotable, AddressText, PassiveText, Proper;
    OptionWords();
    if e.passive != [] {
      PassiveReadBack(e.passive, 0);
    }
    ReadableWhen(e.addr.n.zone != -1, "-a", Word(AddressText(e.addr)));
    ReadableWhen(e.key.Some?, "-k", Word(Given(e.key)));
    ReadableWhen(e.passive != [], "-p", Word(PassiveText(e.passive)));
    ReadableWhen(e.desc.Some?, "-d", Text(Given(e.desc)));
    ReadableWhen(e.state.Some?, "-s", Word(Given(e.state)));
  }

  lemma ReadableBoth(a: seq<Field>, b: seq<Field>)
    requires AllReadable(a) && AllReadable(b)
    ensures AllReadable(a + b)
  {
    hide Readable;
  }

  lemma FieldsReadable(e: Entry)
    requires WellFormed(e)
    ensures AllReadable([Word(DirWord(e)), Word(e.area)] + Options(e))
  {
    hide AllReadable, ZoneField, AddrField, LvlField, KeyField, PassiveField, TimeField,
         ExpireNField, ExpireTField, DescField, StateField, UplinksField;
    ReadableNumbers(e);
    ReadableWords(e);
    ReadableHead(e);
    var o := ZoneField(e);
    ReadableBoth(o, AddrField(e));
    o := o + AddrField(e);
    ReadableBoth(o, LvlField(e));
    o := o + LvlField(e);
    ReadableBoth(o, KeyField(e));
    o := o + KeyField(e);
    ReadableBoth(o, PassiveField(e));
    o := o + PassiveField(e);
    ReadableBoth(o, TimeField(e));
    o := o + TimeField(e);
    ReadableBoth(o, ExpireNField(e));
    o := o + ExpireNField(e);
    ReadableBoth(o, ExpireTField(e));
    o := o + ExpireTField(e);
    ReadableBoth(o, DescField(e));
    o := o + DescField(e);
    ReadableBoth(o, StateField(e));
    o := o + StateField(e);
    ReadableBoth(o, UplinksField(e));
    ReadableBoth([Word(DirWord(e)), Word(e.area)], Options(e));
  }

  lemma ReadableHead(e: Entry)
    requires WellFormed(e)
    ensures AllReadable([Word(DirWord(e)), Word(e.area)])
  {
    assert !e.passthru ==> DirWord(e) == e.dir;
  }

  lemma OptionWords()
    ensures IsWord("-z") && IsWord("-a") && IsWord("-l") && IsWord("-k") && IsWord("-p") && IsWord("-t")
         && IsWord("-e") && IsWord("-n") && IsWord("-d") && IsWord("-s") && IsWord("-u")
  {
  }

  // A printed line is parsed into the same entry, in its normal form.
  lemma LineReadBack(e: Entry, c: Config)
    requires WellFormed(e)
    ensures ParseTokens(Tokens(LineText(e)), c) == Parsed(Normal(e))
  {
    hide Tokens, Options, Readable, ListText, Apply, AddNodes, WellFormed, Begin, Visible, Kept, Listed;
    WellFormedLists(e);
    var head := [Word(DirWord(e)), Word(e.area)];
    var fs := head + Options(e);
    var rest := Tokens(ListText(e.nodes, e.uplinks));
    FieldsReadable(e);
    FieldsReadBack(fs, ListText(e.nodes, e.uplinks));
    assert fs[0] == head[0] && fs[1..][0] == head[1] && fs[1..][1..] == Options(e);
    var toks := Tokens(LineText(e));
    assert toks == FieldTokens(fs) + rest;
    assert FieldTokens(fs) == [DirWord(e)] + ([e.area] + FieldTokens(Options(e)));
    assert toks[2..] == FieldTokens(Options(e)) + rest;
    ListTokens(e.nodes, e.uplinks);
    OptionsGive(e, c);
    OptionsApplied(Begin(toks[0], toks[1]), Options(e), rest, c);
    var h := Heading(e);
    ListReadBack(e.nodes, e.uplinks, c.zone, Lists([], h.passive));
    assert ParseTokens(toks, c) == AddLinks(h, rest, c);
    assert Visible(Listed(e), NOWHERE) == Visible(Dedup(Arrange(e.nodes, e.uplinks)), NOWHERE) by { ListedIs(e); }
  }

  lemma ListedIs(e: Entry)
    requires e.uplinks >= 1
    ensures Listed(e) == Dedup(Arrange(e.nodes, e.uplinks))
  {
  }

  lemma WellFormedLists(e: Entry)
    requires WellFormed(e)
    ensures AllProper(e.nodes) && AllProper(e.passive) && e.uplinks >= 1
    ensures AllProper(Listed(e))
  {
    ArrangeProper(e.nodes, e.uplinks);
    DedupProper(Arrange(e.nodes, e.uplinks));
  }

  // ---- what survives, and when the text settles ----

  // Printing loses no address: checked on the entry before it is written.
  predicate NoLoss(e: Entry)
    requires e.uplinks >= 1
  {
    && NothingGone(e.passive)
    && var a := Arrange(e.nodes, e.uplinks);
       forall i :: 0 < i < |a| && i <= e.uplinks ==> a[i] == a[i - 1] || !Gone(a[i], a[i - 1])
  }

  lemma NothingLost(e: Entry)
    requires WellFormed(e)
    ensures NoLoss(e) <==> Kept(e.passive, NOWHERE) == e.passive && Visible(Listed(e), NOWHERE) == Listed(e)
    ensures AllProper(Visible(Listed(e), NOWHERE)) && AllProper(Kept(e.passive, NOWHERE))
  {
    hide Visible, Kept, Arrange, Dedup;
    WellFormedLists(e);
    LossIsBeforeTheSorted(e.nodes, e.uplinks);
    VisibleAll(e.passive, NOWHERE);
    VisibleAll(Listed(e), NOWHERE);
    VisibleProper(e.passive, NOWHERE);
    VisibleProper(Listed(e), NOWHERE);
    FirstIsThere(e.passive);
    FirstIsThere(Listed(e));
  }

  lemma FirstIsThere(l: seq<Node>)
    requires AllProper(l)
    ensures l != [] ==> !Gone(l[0], NOWHERE)
  {
  }

  // How many addresses stand in front as uplinks.
  function Front(e: Entry): (k: nat)
    requires e.uplinks >= 1
    ensures k <= |e.nodes|
  {
    if |e.nodes| < e.uplinks then |e.nodes| else e.uplinks
  }

  // Every uplink differs from the one before and is printed; the exception is `Doubled`.
  ghost predicate UplinksStand(e: Entry)
    requires e.uplinks >= 1
  {
    AllStand(Arrange(e.nodes, e.uplinks), Front(e))
  }

  // The uplinks are the uplinks again after reading back exactly under this condition.
  lemma UplinksKept(e: Entry)
    requires WellFormed(e)
    ensures Leads(e.nodes[..Front(e)], Normal(e).nodes) <==> UplinksStand(e)
  {
    hide Back, Sort, Sorted, AllStand, Proper;
    var a, k := Arrange(e.nodes, e.uplinks), Front(e);
    ArrangeProper(e.nodes, e.uplinks);
    assert a[..k] == e.nodes[..k];
    assert Normal(e).nodes == Back(a, NOWHERE) by { NormalBack(e); }
    if k == 0 {
      NoUplinks(a);
    } else {
      ArrangeTail(e.nodes, e.uplinks);
      if k < e.uplinks {
        assert a[k..] == [];
        NothingSorted();
      }
      ProperShows(a[0]);
      UplinksBack(a, NOWHERE, k);
    }
  }

  lemma NormalBack(e: Entry)
    requires e.uplinks >= 1
    ensures Normal(e).nodes == Back(Arrange(e.nodes, e.uplinks), NOWHERE) && Normal(e).uplinks == e.uplinks
  {
    hide Visible, Dedup, Arrange, Kept;
  }

  lemma NothingSorted()
    ensures Sorted([])
  {
  }

  lemma NoUplinks(a: seq<Node>)
    ensures AllStand(a, 0)
  {
  }

  // No uplink repeats the one before.
  predicate NoTwins(e: Entry)
    requires e.uplinks >= 1
  {
    forall i :: 0 < i < Front(e) ==> e.nodes[i] != e.nodes[i - 1]
  }

  lemma StandWhenNothingLost(e: Entry)
    requires e.uplinks >= 1 && NoLoss(e)
    ensures UplinksStand(e) <==> NoTwins(e)
  {
    hide Gone, Sort;
    var a, k := Arrange(e.nodes, e.uplinks), Front(e);
    assert forall i :: 0 <= i < k ==> a[i] == e.nodes[i];
    assert !Doubled(a, k);
    if NoTwins(e) {
      forall i | 0 < i < k ensures Stands(a, i) {
        assert a[i] != a[i - 1];
      }
    }
    if UplinksStand(e) {
      forall i | 0 < i < k ensures e.nodes[i] != e.nodes[i - 1] {
        assert Stands(a, i);
      }
    }
  }

  // Written and read back, an entry is the same but for the order of its other links, and its
  // uplinks are its uplinks, exactly when nothing is lost, no uplink repeats the one before,
  // and it holds only what the file can say.
  lemma ReadsBackFaithfully(e: Entry, c: Config)
    requires WellFormed(e)
    ensures ParseTokens(Tokens(LineText(e)), c) == Parsed(e.(nodes := Listed(e))) && Leads(e.nodes[..Front(e)], Listed(e))
       <==> NoLoss(e) && NoTwins(e) && Sayable(e)
    ensures ParseTokens(Tokens(LineText(e)), c) == Parsed(e.(nodes := Listed(e))) <==> NoLoss(e) && Sayable(e)
  {
    hide Tokens, LineText, ParseTokens, Visible, Kept, NoLoss, Listed, NoTwins, UplinksStand, Leads;
    LineReadBack(e, c);
    NothingLost(e);
    if e.zone == -1 {
      var v := Visible(Listed(e), NOWHERE);
      assert v != [] ==> Proper(v[0]);
      assert Normal(e).zone != -1;
    }
    UplinksKept(e);
    if NoLoss(e) {
      StandWhenNothingLost(e);
      assert Normal(e).nodes == Listed(e);
    }
  }

  // The file has no word for a read-only area, and one without a zone is given one.
  predicate Sayable(e: Entry) {
    !e.readonly && e.zone != -1 && (e.addr.n.zone == -1 ==> e.addr == NO_ADDRESS)
  }

  // An entry read back can be written again,
  lemma NormalIsWellFormed(e: Entry)
    requires WellFormed(e)
    ensures WellFormed(Normal(e))
  {
    hide Visible, Kept, Listed, IsWord, Quotable, AddressText;
    NothingLost(e);
  }

  // and from then on loses nothing: a second reading still merges repetitions that only the
  // loss of an address between them brought together, a third changes no more.
  lemma NormalIsStable(e: Entry)
    requires WellFormed(e)
    ensures var n := Normal(e);
      && NoLoss(n)
      && Normal(n) == n.(nodes := Dedup(n.nodes))
      && Normal(Normal(n)) == Normal(n)
      && (Normal(n) == n <==> forall i :: 0 < i < |n.nodes| ==> n.nodes[i] != n.nodes[i - 1])
    ensures NoLoss(e) ==> Normal(Normal(e)) == Normal(e)
  {
    hide Visible, Kept, Arrange, Dedup, NoLoss, WellFormed, Normal, NothingGone, Back;
    WellFormedLists(e);
    var n := Normal(e);
    NormalOnce(e);
    NormalTwice(e);
    var d := n.(nodes := Dedup(n.nodes));
    DedupTwice(n.nodes);
    NormalOf(n);
    NormalOf(d);
    DedupIs(n.nodes);
    if NoLoss(e) {
      NothingLost(e);
      NormalBack(e);
      DedupTwice(Arrange(e.nodes, e.uplinks));
      assert n.nodes == Dedup(Arrange(e.nodes, e.uplinks)) by { ListedIs(e); BackIs(Arrange(e.nodes, e.uplinks)); }
    }
  }

  lemma BackIs(a: seq<Node>)
    ensures Back(a, NOWHERE) == Visible(Dedup(a), NOWHERE)
  {
  }

  // What the first reading leaves.
  predicate Clean(n: Entry) {
    && n.uplinks >= 1 && !n.readonly && n.zone != -1 && (n.addr.n.zone == -1 ==> n.addr == NO_ADDRESS)
    && AllProper(n.passive) && AllProper(n.nodes) && NothingGone(n.passive) && NothingGone(n.nodes)
    && Arrange(n.nodes, n.uplinks) == n.nodes
  }

  lemma NormalOnce(e: Entry)
    requires WellFormed(e)
    ensures Clean(Normal(e))
  {
    hide Visible, Kept, Arrange, Dedup, Listed, NothingGone, Back, IsWord, Quotable, AddressText;
    var n := Normal(e);
    NothingLost(e);
    NormalBack(e);
    BackNothingGone(Arrange(e.nodes, e.uplinks), NOWHERE);
    BackArranged(e.nodes, e.uplinks);
    KeptNothingGone(e.passive, NOWHERE);
    assert n.nodes != [] ==> Proper(n.nodes[0]);
  }

  lemma NormalTwice(e: Entry)
    requires WellFormed(e)
    ensures Clean(Normal(e).(nodes := Dedup(Normal(e).nodes)))
  {
    hide Kept, Arrange, Dedup, NothingGone, Normal, WellFormed, Back;
    WellFormedLists(e);
    var n := Normal(e);
    NormalOnce(e);
    NormalBack(e);
    BackArranged(e.nodes, e.uplinks);
    FirstIsThere(n.nodes);
    BackOfBack(n.nodes, NOWHERE);
    DedupProper(n.nodes);
  }

  lemma {:induction false} KeptNothingGone(l: seq<Node>, prev: Node)
    ensures NothingGone(Kept(l, prev))
    ensures Kept(l, prev) != [] ==> !Gone(Kept(l, prev)[0], prev)
  {
    hide Gone, NothingGone;
    if l == [] || Gone(l[0], prev) {
      FewGone([]);
    } else {
      var k := Kept(l[1..], l[0]);
      KeptNothingGone(l[1..], l[0]);
      assert ([l[0]] + k)[1..] == k;
      NothingGoneStep([l[0]] + k);
    }
  }

  // Reading back a clean entry merges repetitions, no more.
  lemma NormalOf(n: Entry)
    requires Clean(n)
    ensures Normal(n) == n.(nodes := Dedup(n.nodes)) && NoLoss(n)
  {
    hide Arrange, Dedup, Gone, NothingGone, Back, Kept, Proper;
    FirstIsThere(n.nodes);
    FirstIsThere(n.passive);
    NormalBack(n);
    BackOfBack(n.nodes, NOWHERE);
    VisibleAll(n.passive, NOWHERE);
    DedupGone(n.nodes);
  }

  lemma {:induction false} DedupIs(l: seq<Node>)
    ensures Dedup(l) == l <==> forall i :: 0 < i < |l| ==> l[i] != l[i - 1]
  {
    if |l| >= 2 {
      var r := l[1..];
      DedupIs(r);
      assert l == [l[0]] + r;
      forall i | 0 < i < |r| ensures r[i] != r[i - 1] <==> l[i + 1] != l[i] {
      }
      if l[0] != l[1] {
        assert Dedup(l)[1..] == Dedup(r);
        if Dedup(r) == r {
          forall i | 0 < i < |l| ensures l[i] != l[i - 1] {
            assert i > 1 ==> r[i - 1] != r[i - 2];
          }
        }
      }
    }
  }

  // Written again, the line is byte for byte the first one, unless an address was lost, it
  // lacked the zone that reading fills in, or it ended in the blank left over by a repetition
  // at the end of the list.
  lemma RewriteIsIdentical(e: Entry)
    requires WellFormed(e)
    ensures LineText(Normal(e)) == LineText(e)
       <==> NoLoss(e) && e.zone != -1 && !TwinEnd(Arrange(e.nodes, e.uplinks))
  {
    hide Visible, Kept, Arrange, Dedup, NoLoss, ListText, FieldsText, LineText, ZoneField, BeforePassive, AfterPassive, TwinEnd,
      Normal, Listed, WellFormed;
    WellFormedLists(e);
    var n := Normal(e);
    NormalParts(e);
    LineParts(e);
    LineParts(n);
    ListShrinks(e);
    PassiveShrinks(e);
    ZoneText(e);
    if e.zone == -1 {
      ZoneShows(e, n);
    } else {
      assert FieldsText(ZoneField(n)) == FieldsText(ZoneField(e)) by { SameZone(e, n); }
    }
  }

  // The list of links is shorter when one is lost, and when a left-over blank goes.
  lemma ListShrinks(e: Entry)
    requires WellFormed(e)
    ensures var n := Normal(e);
      && |ListText(n.nodes, e.uplinks)| <= |ListText(e.nodes, e.uplinks)|
      && (n.nodes != Listed(e) ==> |ListText(n.nodes, e.uplinks)| < |ListText(e.nodes, e.uplinks)|)
      && (n.nodes == Listed(e) ==>
            (TwinEnd(Arrange(e.nodes, e.uplinks)) ==> |ListText(n.nodes, e.uplinks)| < |ListText(e.nodes, e.uplinks)|)
            && (!TwinEnd(Arrange(e.nodes, e.uplinks)) ==> ListText(n.nodes, e.uplinks) == ListText(e.nodes, e.uplinks)))
  {
    hide Visible, Kept, Arrange, Dedup, ListText, TwinEnd, Proper;
    WellFormedLists(e);
    TextShrinks(e.nodes, e.uplinks);
    TextSettles(e.nodes, e.uplinks);
    TwinBlank(e.nodes, e.uplinks);
  }

  // So is the option with the passive links.
  lemma PassiveShrinks(e: Entry)
    requires WellFormed(e)
    ensures var (a, b) := (FieldsText(PassiveField(Normal(e))), FieldsText(PassiveField(e)));
      |a| <= |b| && (if Kept(e.passive, NOWHERE) == e.passive then a == b else |a| < |b|)
  {
    hide Kept, Visible, Listed, PassiveText, Proper;
    var k := Kept(e.passive, NOWHERE);
    KeptTakesLess(e.passive, NOWHERE);
    FirstIsThere(e.passive);
    NoneKept(e.passive, NOWHERE);
    PassiveFieldText(e);
    PassiveFieldText(Normal(e));
    PassiveTaken(e.passive);
    PassiveTaken(k);
  }

  lemma NoneKept(l: seq<Node>, prev: Node)
    ensures Kept(l, prev) == [] <==> l == [] || Gone(l[0], prev)
  {
  }

  lemma PassiveTaken(l: seq<Node>)
    ensures TakenPassive(l, NOWHERE) == if l == [] then 0 else 1 + |PassiveText(l)|
  {
  }

  lemma PassiveFieldText(e: Entry)
    ensures FieldsText(PassiveField(e)) == if e.passive == [] then "" else "-p " + (PassiveText(e.passive) + " ")
  {
    hide PassiveText;
    if e.passive != [] {
      var w := PassiveText(e.passive);
      var fs := PassiveField(e);
      assert fs[0] == Word("-p") && fs[1..] == [Word(w)] && fs[1..][1..] == [];
      assert FieldsText(fs[1..]) == FieldText(Word(w)) + "" == w + " ";
      assert FieldText(fs[0]) == "-p ";
    }
  }

  // A line that gains its zone has another letter after the area name.
  lemma ZoneShows(e: Entry, n: Entry)
    requires e.uplinks >= 1 && n.uplinks >= 1 && e.zone == -1 && n.zone != -1 && DirWord(n) == DirWord(e) && n.area == e.area
    ensures LineText(n) != LineText(e)
  {
    hide FieldsText, ListText, Options, ZoneField, BeforePassive, AfterPassive, LineText;
    LineParts(e);
    LineParts(n);
    var head := FieldsText([Word(DirWord(e)), Word(e.area)]);
    ZoneText(e);
    ZoneText(n);
    FirstLetter(e);
    assert LineText(n)[|head| + 1] == 'z';
    assert LineText(e)[|head| + 1] != 'z';
  }

  // Behind the zone comes another option, the time at the latest.
  lemma FirstLetter(e: Entry)
    ensures var t := FieldsText(BeforePassive(e)) + FieldsText(PassiveField(e)) + FieldsText(AfterPassive(e));
      |t| >= 2 && t[1] != 'z'
  {
    hide Print, AddressText, PassiveText, When, TimeField, BeforePassive, PassiveField, AfterPassive;
    FirstOfTime(e);
    FirstOfPassive(e);
    FirstOfBefore(e);
  }

  // Text that starts with an option other than the zone, or nothing.
  predicate NoZoneFirst(t: string) {
    t == "" || (|t| >= 2 && t[1] != 'z')
  }

  lemma WhenFirst(b: bool, opt: string, f: Field)
    requires |opt| == 2 && opt[1] != 'z'
    ensures NoZoneFirst(FieldsText(When(b, opt, f))) && (b ==> FieldsText(When(b, opt, f)) != "")
  {
    if b {
      assert FieldsText(When(b, opt, f)) == (opt + " ") + FieldsText(When(b, opt, f)[1..]);
    }
  }

  lemma FirstOfBefore(e: Entry)
    ensures NoZoneFirst(FieldsText(BeforePassive(e)))
  {
    hide When, FieldsText, AddressText, Print;
    WhenFirst(e.addr.n.zone != -1, "-a", Word(AddressText(e.addr)));
    WhenFirst(e.lvl != -1, "-l", Word(Print(e.lvl)));
    WhenFirst(e.key.Some?, "-k", Word(Given(e.key)));
    FieldsTextBoth(AddrField(e), LvlField(e));
    FieldsTextBoth(AddrField(e) + LvlField(e), KeyField(e));
  }

  lemma FirstOfPassive(e: Entry)
    ensures NoZoneFirst(FieldsText(PassiveField(e)))
  {
    hide When, FieldsText, PassiveText;
    WhenFirst(e.passive != [], "-p", Word(PassiveText(e.passive)));
  }

  lemma FirstOfTime(e: Entry)
    ensures FieldsText(AfterPassive(e)) != "" && NoZoneFirst(FieldsText(AfterPassive(e)))
  {
    hide When, FieldsText, Print, ExpireNField, ExpireTField, DescField, StateField, UplinksField;
    WhenFirst(true, "-t", Word(Print(Unsigned(e.time))));
    var rest := ExpireNField(e) + ExpireTField(e) + DescField(e) + StateField(e) + UplinksField(e);
    assert AfterPassive(e) == TimeField(e) + rest;
    FieldsTextBoth(TimeField(e), rest);
  }

  lemma SameZone(e: Entry, n: Entry)
    requires e.zone == n.zone
    ensures ZoneField(e) == ZoneField(n)
  {
  }

  lemma NormalParts(e: Entry)
    requires WellFormed(e)
    ensures var n := Normal(e);
      && n.uplinks == e.uplinks && n.area == e.area && DirWord(n) == DirWord(e)
      && n.zone != -1 && (e.zone != -1 ==> n.zone == e.zone)
      && BeforePassive(n) == BeforePassive(e) && AfterPassive(n) == AfterPassive(e)
      && n.nodes == Visible(Listed(e), NOWHERE) && n.passive == Kept(e.passive, NOWHERE)
    ensures NoLoss(e) <==> Normal(e).nodes == Listed(e) && Normal(e).passive == e.passive
  {
    hide Visible, Kept, Arrange, Dedup, NoLoss, Listed, IsWord, Quotable, AddressText, Print;
    NothingLost(e);
    WellFormedLists(e);
    var n := Normal(e);
    assert AddrField(n) == AddrField(e) by { SameWhen(e, n); }
    assert n.nodes != [] ==> Proper(n.nodes[0]);
  }

  lemma SameWhen(e: Entry, n: Entry)
    requires n.addr.n.zone == e.addr.n.zone && (e.addr.n.zone != -1 ==> n.addr == e.addr)
    ensures AddrField(n) == AddrField(e)
  {
    hide AddressText;
  }

  // The options but the zone, around the one that reading may change.
  function BeforePassive(e: Entry): seq<Field> {
    AddrField(e) + LvlField(e) + KeyField(e)
  }

  function AfterPassive(e: Entry): seq<Field> {
    TimeField(e) + ExpireNField(e) + ExpireTField(e) + DescField(e) + StateField(e) + UplinksField(e)
  }

  lemma LineParts(e: Entry)
    requires e.uplinks >= 1
    ensures LineText(e) == FieldsText([Word(DirWord(e)), Word(e.area)]) + FieldsText(ZoneField(e))
      + (FieldsText(BeforePassive(e)) + FieldsText(PassiveField(e)) + FieldsText(AfterPassive(e)))
      + ListText(e.nodes, e.uplinks)
  {
    hide ListText, ZoneField, AddrField, LvlField, KeyField, PassiveField, TimeField,
         ExpireNField, ExpireTField, DescField, StateField, UplinksField, FieldsText;
    var head := [Word(DirWord(e)), Word(e.area)];
    var b, p, a := BeforePassive(e), PassiveField(e), AfterPassive(e);
    assert Options(e) == ZoneField(e) + (b + p + a);
    FieldsTextBoth(head, Options(e));
    FieldsTextBoth(ZoneField(e), b + p + a);
    FieldsTextBoth(b + p, a);
    FieldsTextBoth(b, p);
    Regroup(FieldsText(head), FieldsText(ZoneField(e)), FieldsText(b + p + a));
  }

  lemma {:induction false} FieldsTextBoth(a: seq<Field>, b: seq<Field>)
    ensures FieldsText(a + b) == FieldsText(a) + FieldsText(b)
  {
    hide FieldText;
    if a == [] {
      assert a + b == b && FieldsText(a) == "";
    } else {
      assert (a + b)[1..] == a[1..] + b;
      FieldsTextBoth(a[1..], b);
    }
  }

  lemma ZoneText(e: Entry)
    ensures e.zone != -1 ==> |FieldsText(ZoneField(e))| >= 3 && FieldsText(ZoneField(e))[1] == 'z'
    ensures e.zone == -1 ==> FieldsText(ZoneField(e)) == ""
  {
    hide Print;
    if e.zone != -1 {
      var fs := ZoneField(e);
      assert fs[0] == Word("-z") && FieldText(fs[0]) == "-z ";
      assert FieldsText(fs) == "-z " + FieldsText(fs[1..]);
    }
  }

  lemma TwinBlank(l: seq<Node>, uplinks: nat)
    ensures |ListText(Dedup(Arrange(l, uplinks)), uplinks)|
         == |ListText(l, uplinks)| - (if TwinEnd(Arrange(l, uplinks)) then 1 else 0)
  {
    hide Arrange, Dedup, Join;
    Settled(l, uplinks);
  }

  // An entry with two uplinks.
  function Example(nodes: seq<Node>): Entry {
    FRESH.(dir := "d", area := "a", zone := 2, uplinks := 2, nodes := nodes)
  }

  lemma ExampleReadBack(nodes: seq<Node>, r: seq<Node>, c: Config)
    requires AllProper(nodes) && Visible(Dedup(Arrange(nodes, 2)), NOWHERE) == r
    ensures WellFormed(Example(nodes)) && ParseTokens(Tokens(LineText(Example(nodes))), c) == Parsed(Example(r))
  {
    hide Visible, Dedup, Arrange, Tokens, LineText, ParseTokens;
    LineReadBack(Example(nodes), c);
    assert Kept([], NOWHERE) == [];
  }

  // Two links of one node in the uplink prefix, point 0 second: the second is not there after
  // reading back.
  lemma LostUplink(c: Config)
    ensures var e := Example([Node(2, 5, 1, 7), Node(2, 5, 1, 0)]);
      WellFormed(e) && ParseTokens(Tokens(LineText(e)), c) == Parsed(Example([Node(2, 5, 1, 7)]))
  {
    hide ParseTokens, Tokens, LineText, WellFormed;
    var x, y := Node(2, 5, 1, 7), Node(2, 5, 1, 0);
    var l := [x, y];
    assert Arrange(l, 2) == l;
    assert l[1..] == [y] && Dedup(l) == [x] + Dedup([y]) == l;
    assert Visible(l, NOWHERE) == [x] + Visible([y], x) && [y][1..] == [];
    assert Visible([y], x) == [] + Visible([], y) == [];
    ExampleReadBack(l, [x], c);
  }

  // Repetitions among the uplinks are merged, but the number of uplinks is not: a downlink
  // takes the free place.
  lemma DownlinkPromoted(c: Config)
    ensures var up, down := Node(2, 5, 1, 0), Node(2, 5, 9, 0);
      var e := Example([up, up, down]);
      WellFormed(e) && down !in e.nodes[..2] && ParseTokens(Tokens(LineText(e)), c) == Parsed(Example([up, down]))
  {
    hide ParseTokens, Tokens, LineText, WellFormed;
    var up, down := Node(2, 5, 1, 0), Node(2, 5, 9, 0);
    var l := [up, up, down];
    assert l[2..] == [down] && l[..2] == [up, up] && [down][1..] == [];
    assert Sort([down]) == Insert(down, Sort([])) == [down];
    assert Arrange(l, 2) == l[..2] + [down] == l;
    assert l[1..] == [up, down] && [up, down][1..] == [down];
    assert Dedup(l) == Dedup([up, down]) == [up] + Dedup([down]) == [up, down];
    assert Visible([up, down], NOWHERE) == [up] + Visible([down], up);
    assert Visible([down], up) == [down] + Visible([], down);
    ExampleReadBack(l, [up, down], c);
  }
}
