// FTN addresses as text: full, or as the difference from the address before.
module FtnNode {
  import opened Common
  import opened Decimal

  const EMPTY := -1
  const WILDCARD := -2

  // An address with its domain, as far as it was given.
  datatype Address = Address(n: Node, domain: string)

  const NOWHERE := Node(EMPTY, EMPTY, EMPTY, EMPTY)
  const ANYWHERE := Node(WILDCARD, WILDCARD, WILDCARD, WILDCARD)
  const MAXDOMAIN := 32

  // An address that can be printed and read back: no part empty, wild or negative.
  predicate Proper(n: Node) {
    n.zone >= 0 && n.net >= 0 && n.node >= 0 && n.point >= 0
  }

  // node_np_eq
  predicate SameNode(a: Node, b: Node) {
    a.zone == b.zone && a.net == b.net && a.node == b.node
  }

  // node_cmp: -1, 0 or 1
  function Compare(a: Node, b: Node): int {
    if a.zone != b.zone then (if a.zone < b.zone then -1 else 1)
    else if a.net != b.net then (if a.net < b.net then -1 else 1)
    else if a.node != b.node then (if a.node < b.node then -1 else 1)
    else if a.point != b.point then (if a.point < b.point then -1 else 1)
    else 0
  }

  // ---- printing ----

  function PointSuffix(p: int): string {
    if p != 0 then "." + Print(p) else ""
  }

  // node_to_asc_diff
  function DiffText(n: Node, prev: Node): string {
    if n.zone != prev.zone then Print(n.zone) + ":" + Print(n.net) + "/" + Print(n.node) + PointSuffix(n.point)
    else if n.net != prev.net then Print(n.net) + "/" + Print(n.node) + PointSuffix(n.point)
    else if n.node != prev.node then Print(n.node) + PointSuffix(n.point)
    else PointSuffix(n.point)
  }

  // Everything after the node number: an optional point and an optional domain.
  function Tail(p: Option<int>, d: string): string {
    (if p.Some? then "." + PutNumber(p.value) else "") + (if d == "" then "" else "@" + d)
  }

  function PutNumber(v: int): string {
    if v == WILDCARD then "*" else Print(v)
  }

  // str_znfp_print with the point always shown and wildcards allowed (znfp1), while it fits its buffer
  function AddressText(a: Address): string {
    var n := a.n;
    if n == NOWHERE then "INVALID"
    else if n == ANYWHERE then "*"
    else
      (if n.zone != EMPTY then PutNumber(n.zone) + ":" else "")
      + (if n.net != EMPTY then PutNumber(n.net) + (if n.node != EMPTY then "/" else "") else "")
      + (if n.node != EMPTY then PutNumber(n.node) else "")
      + Tail(if n.point != EMPTY then Some(n.point) else None, a.domain)
  }

  // ---- parsing ----

  // A number at position i and where it ends; None is ERROR.
  function Number(s: string, i: nat): (r: Option<(int, nat)>)
    requires i <= |s|
    ensures r.Some? ==> i < r.value.1 <= |s| && r.value.0 != EMPTY
  {
    if i < |s| && s[i] == '*' then Some((WILDCARD, i + 1))
    else if i + 3 <= |s| && Lower(s[i..i + 3]) == "all" then Some((WILDCARD, i + 3))
    else if i < |s| && IsDigit(s[i]) then
      var j := SkipDigits(s, i);
      Some((ValueOf(s[i..j]), j))
    else None
  }

  predicate AtChar(s: string, i: nat, c: char) {
    i < |s| && s[i] == c
  }

  // The parts after the first number: what is still held back in `held` becomes the zone,
  // net or node according to the sign that follows it.
  function AfterPoint(s: string, i: nat, held: int, n: Node): Option<Address>
    requires i <= |s|
  {
    var m := if held != EMPTY then n.(node := held) else n;
    if i == |s| then Some(Address(m, ""))
    else if s[i] == '@' then
      var d := s[i + 1..];
      Some(Address(m, if |d| < MAXDOMAIN then d else d[..MAXDOMAIN - 1]))
    else None
  }

  function AfterNode(s: string, i: nat, held: int, n: Node): Option<Address>
    requires i <= |s|
  {
    if !AtChar(s, i, '.') then AfterPoint(s, i, held, n)
    else match Number(s, i + 1)
      case None => None
      case Some((v, j)) =>
        AfterPoint(s, j, EMPTY, (if held != EMPTY then n.(node := held) else n).(point := v))
  }

  function AfterNet(s: string, i: nat, held: int, n: Node): Option<Address>
    requires i <= |s|
  {
    if !AtChar(s, i, '/') then AfterNode(s, i, held, n)
    else match Number(s, i + 1)
      case None => None
      case Some((v, j)) =>
        AfterNode(s, j, EMPTY, (if held != EMPTY then n.(net := held) else n).(node := v))
  }

  function AfterFirst(s: string, i: nat, held: int): Option<Address>
    requires i <= |s|
  {
    if !AtChar(s, i, ':') then AfterNet(s, i, held, NOWHERE)
    else match Number(s, i + 1)
      case None => None
      case Some((v, j)) =>
        AfterNet(s, j, EMPTY, (if held != EMPTY then NOWHERE.(zone := held) else NOWHERE).(net := v))
  }

  // znfp_parse_partial
  function ParsePartial(s: string): Option<Address> {
    if s == "*" || Lower(s) == "all" || Lower(s) == "world" then Some(Address(ANYWHERE, ""))
    else if s == "" then None
    else if s[0] == '.' then AfterFirst(s, 0, EMPTY)
    else match Number(s, 0)
      case None => None
      case Some((v, j)) => AfterFirst(s, j, v)
  }

  // ---- the same, as the source does it: a cursor and a digit loop ----

  method GetNumber(s: string, i: nat) returns (r: Option<(int, nat)>)
    requires i <= |s|
    ensures r == Number(s, i)
  {
    if i < |s| && s[i] == '*' {
      return Some((WILDCARD, i + 1));
    }
    if i + 3 <= |s| && Lower(s[i..i + 3]) == "all" {
      return Some((WILDCARD, i + 3));
    }
    if !(i < |s| && IsDigit(s[i])) {
      return None;
    }
    var val, j := 0, i;
    while j < |s| && IsDigit(s[j])
      invariant i <= j <= |s|
      invariant forall k :: i <= k < j ==> IsDigit(s[k])
      invariant val == ValueOf(s[i..j])
    {
      assert s[i..j + 1][..j - i] == s[i..j];
      val := val * 10 + DigitValue(s[j]);
      j := j + 1;
    }
    SkipDigitsAll(s, i, j);
    return Some((val, j));
  }

  method ParsePartialText(s: string) returns (r: Option<Address>)
    ensures r == ParsePartial(s)
  {
    hide Number, Lower, AfterFirst;
    if s == "*" || Lower(s) == "all" || Lower(s) == "world" {
      return Some(Address(ANYWHERE, ""));
    }
    if s == "" {
      return None;
    }
    if s[0] == '.' {
      r := ParseParts(s, 0, EMPTY);
      return;
    }
    var num := GetNumber(s, 0);
    if num.None? { return None; }
    r := ParseParts(s, num.value.1, num.value.0);
  }

  // The part of it after the first number, which is held back until the sign after it is seen.
  method ParseParts(s: string, first: nat, val1: int) returns (r: Option<Address>)
    requires first <= |s|
    ensures r == AfterFirst(s, first, val1)
  {
    hide Number, AfterNode;
    var n, held, i, num := NOWHERE, val1, first, None;
    if AtChar(s, i, ':') {
      if held != EMPTY { n := n.(zone := held); held := EMPTY; }
      num := GetNumber(s, i + 1);
      if num.None? { return None; }
      n, i := n.(net := num.value.0), num.value.1;
    }
    assert AfterFirst(s, first, val1) == AfterNet(s, i, held, n);
    if AtChar(s, i, '/') {
      if held != EMPTY { n := n.(net := held); held := EMPTY; }
      num := GetNumber(s, i + 1);
      if num.None? { return None; }
      n, i := n.(node := num.value.0), num.value.1;
    }
    assert AfterFirst(s, first, val1) == AfterNode(s, i, held, n);
    r := ParseEnd(s, i, held, n);
  }

  // The point and the domain.
  method ParseEnd(s: string, first: nat, val1: int, parts: Node) returns (r: Option<Address>)
    requires first <= |s|
    ensures r == AfterNode(s, first, val1, parts)
  {
    hide Number;
    var n, held, i := parts, val1, first;
    if AtChar(s, i, '.') {
      if held != EMPTY { n := n.(node := held); held := EMPTY; }
      var num := GetNumber(s, i + 1);
      if num.None? { return None; }
      n, i := n.(point := num.value.0), num.value.1;
    }
    assert AfterNode(s, first, val1, parts) == AfterPoint(s, i, held, n);
    if held != EMPTY { n := n.(node := held); }
    if AtChar(s, i, '@') {
      var d := s[i + 1..];
      return Some(Address(n, if |d| < MAXDOMAIN then d else d[..MAXDOMAIN - 1]));
    }
    return if i < |s| then None else Some(Address(n, ""));
  }

  // ---- what the parsed parts mean ----

  // znfp_parse_diff's filling in of what was left empty.
  function FillIn(n: Node, prev: Node): Node {
    if n.zone != EMPTY then n
    else if n.net != EMPTY then n.(zone := prev.zone)
    else if n.node != EMPTY then n.(zone := prev.zone, net := prev.net)
    else n.(zone := prev.zone, net := prev.net, node := prev.node)
  }

  predicate HasWildcard(n: Node) {
    n.zone == WILDCARD || n.net == WILDCARD || n.node == WILDCARD || n.point == WILDCARD
  }

  // asc_to_node_diff
  function Completed(r: Option<Address>, prev: Node): Option<Node> {
    if r.None? then None else
      var n := FillIn(r.value.n, prev);
      if HasWildcard(n) || n.zone == EMPTY || n.net == EMPTY || n.node == EMPTY then None
      else Some(if n.point == EMPTY then n.(point := 0) else n)
  }

  function ParseDiff(s: string, prev: Node): Option<Node> {
    Completed(ParsePartial(s), prev)
  }

  // asc_to_node with point_flag FALSE: what it leaves in *node, whether it succeeds or not.
  function Anchored(r: Option<Address>, was: Address, defZone: int): Address {
    if r.None? then was
    else if HasWildcard(r.value.n) then r.value
    else
      var n := if r.value.n.zone == EMPTY then r.value.n.(zone := defZone) else r.value.n;
      if n.net != EMPTY && n.node != EMPTY && n.point == EMPTY
      then Address(n.(point := 0), r.value.domain) else Address(n, r.value.domain)
  }

  // ---- reading back what was printed ----

  lemma PrintStarts(v: nat)
    ensures Print(v) != "" && IsDigit(Print(v)[0])
  {
  }

  lemma NotSpecial(s: string)
    requires s != "" && (IsDigit(s[0]) || s[0] == '.')
    ensures s != "*" && Lower(s) != "all" && Lower(s) != "world"
  {
  }

  // A printed number followed by anything but a digit is read as that number.
  lemma NumberReadsDigits(s: string, pre: string, v: nat, post: string)
    requires s == pre + Print(v) + post && (post == "" || !IsDigit(post[0]))
    ensures Number(s, |pre|) == Some((v, |pre| + |Print(v)|))
  {
    hide Lower, Digits, ValueOf;
    var i, j := |pre|, |pre| + |Print(v)|;
    assert s[i..j] == Digits(v);
    assert forall k :: i <= k < j ==> s[k] == s[i..j][k - i];
    assert j < |s| ==> s[j] == post[0];
    SkipDigitsAll(s, i, j);
    ValueOfDigits(v);
    if i + 3 <= |s| {
      assert s[i..i + 3][0] == s[i] == s[i..j][0];
      NotSpecial(s[i..i + 3]);
    }
  }

  function WithPoint(n: Node, p: Option<int>): Node {
    if p.Some? then n.(point := p.value) else n
  }

  predicate PlainPoint(p: Option<int>) {
    p.Some? ==> p.value >= 0
  }

  lemma DomainReadBack(s: string, i: nat, d: string, held: int, n: Node)
    requires i <= |s| && s[i..] == (if d == "" then "" else "@" + d) && |d| < MAXDOMAIN
    ensures AfterPoint(s, i, held, n) == Some(Address(if held != EMPTY then n.(node := held) else n, d))
  {
    assert d != "" ==> s[i] == s[i..][0] && s[i + 1..] == s[i..][1..] == d;
  }

  lemma PointReadBack(s: string, pre: string, p: Option<int>, d: string, held: int, n: Node)
    requires s == pre + Tail(p, d) && PlainPoint(p) && |d| < MAXDOMAIN
    ensures var m := if held != EMPTY then n.(node := held) else n;
      AfterNode(s, |pre|, held, n) == Some(Address(WithPoint(m, p), d))
  {
    hide Number, Print, AfterPoint;
    var at := if d == "" then "" else "@" + d;
    if p.Some? {
      NumberReadsDigits(s, pre + ".", p.value, at);
      var j := |pre| + 1 + |Print(p.value)|;
      assert s[j..] == at && s[|pre|] == '.';
      DomainReadBack(s, j, d, EMPTY, (if held != EMPTY then n.(node := held) else n).(point := p.value));
    } else {
      assert s[|pre|..] == at;
      assert d != "" ==> s[|pre|] == at[0];
      DomainReadBack(s, |pre|, d, held, n);
    }
  }

  lemma NodeReadBack(s: string, pre: string, f: nat, p: Option<int>, d: string, held: int, n: Node)
    requires s == pre + "/" + Print(f) + Tail(p, d) && PlainPoint(p) && |d| < MAXDOMAIN
    ensures var m := if held != EMPTY then n.(net := held) else n;
      AfterNet(s, |pre|, held, n) == Some(Address(WithPoint(m.(node := f), p), d))
  {
    hide Number, AfterNode, Print;
    NumberReadsDigits(s, pre + "/", f, Tail(p, d));
    PointReadBack(s, pre + "/" + Print(f), p, d, EMPTY, (if held != EMPTY then n.(net := held) else n).(node := f));
    assert s[|pre|] == '/';
  }

  lemma FullReadBack(s: string, n: Node, p: Option<int>, d: string)
    requires n.zone >= 0 && n.net >= 0 && n.node >= 0 && PlainPoint(p) && |d| < MAXDOMAIN
    requires s == Print(n.zone) + ":" + Print(n.net) + "/" + Print(n.node) + Tail(p, d)
    ensures ParsePartial(s) == Some(Address(WithPoint(n.(point := EMPTY), p), d))
  {
    hide Number, AfterNet, AfterNode, Print, Tail, Lower;
    var rest := "/" + Print(n.node) + Tail(p, d);
    PrintStarts(n.zone);
    var pre := Print(n.zone) + ":" + Print(n.net);
    assert s == pre + "/" + Print(n.node) + Tail(p, d);
    NodeReadBack(s, pre, n.node, p, d, EMPTY, NOWHERE.(zone := n.zone, net := n.net));
    assert s == (Print(n.zone) + ":") + Print(n.net) + rest;
    NumberReadsDigits(s, Print(n.zone) + ":", n.net, rest);
    assert s == "" + Print(n.zone) + (":" + Print(n.net) + rest);
    NumberReadsDigits(s, "", n.zone, ":" + Print(n.net) + rest);
    assert s[0] == Print(n.zone)[0] && s[|Print(n.zone)|] == ':';
    NotSpecial(s);
  }

  lemma NetReadBack(s: string, n: Node, p: Option<int>)
    requires n.net >= 0 && n.node >= 0 && PlainPoint(p)
    requires s == Print(n.net) + "/" + Print(n.node) + Tail(p, "")
    ensures ParsePartial(s) == Some(Address(WithPoint(Node(EMPTY, n.net, n.node, EMPTY), p), ""))
  {
    hide Number, AfterNet, AfterNode, Print, Tail, Lower;
    PrintStarts(n.net);
    var rest := "/" + Print(n.node) + Tail(p, "");
    NodeReadBack(s, Print(n.net), n.node, p, "", n.net, NOWHERE);
    assert s == "" + Print(n.net) + rest;
    NumberReadsDigits(s, "", n.net, rest);
    assert s[0] == Print(n.net)[0] && s[|Print(n.net)|] == '/';
    NotSpecial(s);
  }

  lemma NodeOnlyReadBack(s: string, n: Node, p: Option<int>)
    requires n.node >= 0 && PlainPoint(p) && s == Print(n.node) + Tail(p, "")
    ensures ParsePartial(s) == Some(Address(WithPoint(Node(EMPTY, EMPTY, n.node, EMPTY), p), ""))
  {
    hide Number, AfterNode, Print, Lower;
    PrintStarts(n.node);
    PointReadBack(s, Print(n.node), p, "", n.node, NOWHERE);
    assert s == "" + Print(n.node) + Tail(p, "");
    NumberReadsDigits(s, "", n.node, Tail(p, ""));
    assert s[0] == Print(n.node)[0];
    assert |s| > |Print(n.node)| ==> s[|Print(n.node)|] == '.';
    NotSpecial(s);
  }

  lemma PointOnlyReadBack(s: string, p: int)
    requires p >= 0 && s == Tail(Some(p), "")
    ensures ParsePartial(s) == Some(Address(NOWHERE.(point := p), ""))
  {
    hide Number, AfterNode, Lower;
    assert s == "" + Tail(Some(p), "");
    PointReadBack(s, "", Some(p), "", EMPTY, NOWHERE);
    NotSpecial(s);
  }

  // A difference reads back as the address, given the same zone, net and node before it, as far
  // as the difference leaves them out; only an empty difference cannot be read.
  lemma DiffReadBack(n: Node, prev: Node, seen: Node)
    requires Proper(n) && DiffText(n, prev) != ""
    requires n.zone == prev.zone ==> seen.zone == prev.zone && seen.net == prev.net && seen.node == prev.node
    ensures ParseDiff(DiffText(n, prev), seen) == Some(n)
  {
    hide ParsePartial, Tail, Print;
    var s := DiffText(n, prev);
    var p := if n.point == 0 then None else Some(n.point);
    assert PointSuffix(n.point) == Tail(p, "") by { TailIsSuffix(n.point); }
    if n.zone != prev.zone {
      FullReadBack(s, n, p, "");
    } else if n.net != prev.net {
      NetReadBack(s, n, p);
    } else if n.node != prev.node {
      NodeOnlyReadBack(s, n, p);
    } else {
      PointOnlyReadBack(s, n.point);
    }
  }

  lemma TailIsSuffix(p: nat)
    ensures PointSuffix(p) == Tail(if p == 0 then None else Some(p), "")
  {
    assert PointSuffix(p) + "" == PointSuffix(p);
  }

  // The text of a difference: empty exactly for the same node with point 0, and without blanks.
  lemma DiffShape(n: Node, prev: Node)
    requires Proper(n)
    ensures DiffText(n, prev) == "" <==> SameNode(n, prev) && n.point == 0
    ensures forall c :: c in DiffText(n, prev) ==> IsDigit(c) || c in ":/."
  {
    var p := PointSuffix(n.point);
    assert forall c :: c in p ==> IsDigit(c) || c == '.';
    assert forall c :: c in Print(n.node) || c in Print(n.net) || c in Print(n.zone) ==> IsDigit(c);
  }

  // The full form reads back whole: address, point and domain.
  lemma AddressReadBack(a: Address, was: Address, defZone: int)
    requires Proper(a.n) && |a.domain| < MAXDOMAIN
    ensures Anchored(ParsePartial(AddressText(a)), was, defZone) == a
  {
    hide ParsePartial, Tail, Print;
    var n := a.n;
    assert AddressText(a) == Print(n.zone) + ":" + Print(n.net) + "/" + Print(n.node) + Tail(Some(n.point), a.domain);
    FullReadBack(AddressText(a), n, Some(n.point), a.domain);
  }
}
