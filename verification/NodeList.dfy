// Lists of addresses as areas.bbs holds them: printed as differences, uplinks first and the
// rest sorted, or comma-separated; and read back.
module NodeList {
  import opened Common
  import opened FtnNode
  import opened StrTok
  import Decimal

  predicate AllProper(l: seq<Node>) {
    forall i :: 0 <= i < |l| ==> Proper(l[i])
  }

  // ---- lon_sort ----

  predicate Sorted(l: seq<Node>) {
    forall i, j :: 0 <= i < j < |l| ==> Compare(l[i], l[j]) <= 0
  }

  function Insert(n: Node, l: seq<Node>): (r: seq<Node>)
    ensures |r| == |l| + 1
  {
    if l == [] || Compare(n, l[0]) <= 0 then [n] + l else [l[0]] + Insert(n, l[1..])
  }

  // What qsort with node_cmp makes of a list.
  function Sort(l: seq<Node>): (r: seq<Node>)
    ensures |r| == |l|
  {
    if l == [] then [] else Insert(l[0], Sort(l[1..]))
  }

  lemma CompareOrders(a: Node, b: Node, c: Node)
    ensures Compare(a, b) <= 0 || Compare(b, a) <= 0
    ensures Compare(a, b) <= 0 && Compare(b, c) <= 0 ==> Compare(a, c) <= 0
    ensures Compare(a, b) <= 0 && Compare(b, a) <= 0 ==> a == b
  {
  }

  predicate AtMost(n: Node, l: seq<Node>) {
    forall i :: 0 <= i < |l| ==> Compare(n, l[i]) <= 0
  }

  lemma SortedStart(n: Node, l: seq<Node>)
    ensures Sorted([n] + l) <==> AtMost(n, l) && Sorted(l)
  {
    hide Compare;
    var s := [n] + l;
    assert s[1..] == l;
    if Sorted(s) {
      SuffixSorted(s, 1);
      forall i | 0 <= i < |l| ensures Compare(n, l[i]) <= 0 {
        assert Compare(s[0], s[i + 1]) <= 0;
      }
    }
  }

  lemma {:induction false} InsertAtMost(m: Node, n: Node, l: seq<Node>)
    requires Compare(m, n) <= 0 && AtMost(m, l)
    ensures AtMost(m, Insert(n, l))
  {
    hide Compare;
    if l != [] && Compare(n, l[0]) > 0 {
      InsertAtMost(m, n, l[1..]);
    }
  }

  lemma {:induction false} InsertSorts(n: Node, l: seq<Node>)
    requires Sorted(l)
    ensures Sorted(Insert(n, l)) && multiset(Insert(n, l)) == multiset(l) + multiset{n}
  {
    hide Compare, Sorted, AtMost;
    if l == [] {
      SortedStart(n, l);
      assert Sorted(l) && AtMost(n, l) by { Trivial(n); }
    } else {
      assert l == [l[0]] + l[1..];
      SortedStart(l[0], l[1..]);
      CompareOrders(l[0], n, n);
      if Compare(n, l[0]) <= 0 {
        AtMostAll(n, l);
        SortedStart(n, l);
      } else {
        InsertSorts(n, l[1..]);
        InsertAtMost(l[0], n, l[1..]);
        SortedStart(l[0], Insert(n, l[1..]));
      }
    }
  }

  lemma Trivial(n: Node)
    ensures AtMost(n, []) && Sorted([])
  {
  }

  lemma AtMostAll(n: Node, l: seq<Node>)
    requires Sorted(l) && l != [] && Compare(n, l[0]) <= 0
    ensures AtMost(n, l)
  {
    hide Compare;
    forall i | 0 <= i < |l| ensures Compare(n, l[i]) <= 0 {
      CompareOrders(n, l[0], l[i]);
    }
  }

  lemma {:induction false} SortSorts(l: seq<Node>)
    ensures Sorted(Sort(l)) && multiset(Sort(l)) == multiset(l) && |Sort(l)| == |l|
    ensures Ascending(Sort(l))
  {
    hide Compare, Sorted, Ascending, Insert;
    SortedAscends(Sort(l));
    if l == [] {
      NothingSorted();
    } else {
      SortSorts(l[1..]);
      InsertSorts(l[0], Sort(l[1..]));
      assert l == [l[0]] + l[1..];
      assert |multiset(Sort(l))| == |multiset(l)|;
    }
  }

  lemma NothingSorted()
    ensures Sorted([])
  {
  }

  predicate Ascending(l: seq<Node>) {
    forall i, j :: 0 <= i < j < |l| ==> NotAfter(l[i], l[j])
  }

  lemma SortedAscends(l: seq<Node>)
    ensures Sorted(l) <==> Ascending(l)
  {
    hide Compare, NotAfter;
    forall i, j | 0 <= i < j < |l| ensures Compare(l[i], l[j]) <= 0 <==> NotAfter(l[i], l[j]) {
      CompareIsOrder(l[i], l[j]);
    }
  }

  // By zone, net, node and point.
  predicate NotAfter(a: Node, b: Node) {
    || a.zone < b.zone
    || (a.zone == b.zone && a.net < b.net)
    || (a.zone == b.zone && a.net == b.net && a.node < b.node)
    || (a.zone == b.zone && a.net == b.net && a.node == b.node && a.point <= b.point)
  }

  lemma CompareIsOrder(a: Node, b: Node)
    ensures Compare(a, b) <= 0 <==> NotAfter(a, b)
  {
  }

  lemma FirstIsLeast(a: seq<Node>, x: Node)
    requires Sorted(a) && x in multiset(a)
    ensures a != [] && Compare(a[0], x) <= 0
  {
    hide Compare;
    var i :| 0 <= i < |a| && a[i] == x;
    CompareOrders(x, x, x);
  }

  // The order being total on addresses, whatever sorts the list gives this result.
  lemma {:induction false} SortIsUnique(a: seq<Node>, b: seq<Node>)
    requires Sorted(a) && Sorted(b) && multiset(a) == multiset(b)
    ensures a == b
  {
    hide Compare, Sorted;
    if a == [] {
      assert |multiset(b)| == 0;
    } else {
      assert |multiset(b)| == |multiset(a)|;
      FirstIsLeast(a, b[0]);
      FirstIsLeast(b, a[0]);
      CompareOrders(a[0], b[0], b[0]);
      assert a == [a[0]] + a[1..] && b == [b[0]] + b[1..];
      assert multiset(a[1..]) == multiset(a) - multiset{a[0]};
      SuffixSorted(a, 1);
      SuffixSorted(b, 1);
      SortIsUnique(a[1..], b[1..]);
    }
  }

  lemma SuffixSorted(l: seq<Node>, k: nat)
    requires Sorted(l) && k <= |l|
    ensures Sorted(l[k..])
  {
    hide Compare;
  }

  // The order lon_print_sorted prints in: the first `uplinks` as they are, then the rest sorted.
  function Arrange(l: seq<Node>, uplinks: nat): (r: seq<Node>)
    ensures |r| == |l|
  {
    if |l| <= uplinks then l else l[..uplinks] + Sort(l[uplinks..])
  }

  // ---- printing ----

  // Runs of equal addresses are printed once.
  function Dedup(l: seq<Node>): (r: seq<Node>)
    ensures |r| <= |l| && (r == [] <==> l == [])
    ensures l != [] ==> r[0] == l[0]
  {
    if |l| < 2 then l
    else if l[0] == l[1] then Dedup(l[1..])
    else [l[0]] + Dedup(l[1..])
  }

  function Diffs(l: seq<Node>, prev: Node): (ws: seq<string>)
    ensures |ws| == |l|
  {
    if l == [] then [] else [DiffText(l[0], prev)] + Diffs(l[1..], l[0])
  }

  function Join(ws: seq<string>, sep: char): string {
    if ws == [] then "" else if |ws| == 1 then ws[0] else ws[0] + [sep] + Join(ws[1..], sep)
  }

  predicate TwinEnd(l: seq<Node>) {
    |l| >= 2 && l[|l| - 1] == l[|l| - 2]
  }

  // The printed list: a blank is left over when the last addresses are equal.
  function SortedText(l: seq<Node>, prev: Node): string {
    Join(Diffs(Dedup(l), prev), ' ') + (if TwinEnd(l) then " " else "")
  }

  function ListText(l: seq<Node>, uplinks: nat): string {
    SortedText(Arrange(l, uplinks), NOWHERE)
  }

  function PassiveText(l: seq<Node>): string {
    Join(Diffs(l, NOWHERE), ',')
  }

  // The first place after i where the address changes.
  method RunEnd(a: seq<Node>, start: nat) returns (i: nat)
    requires start < |a|
    ensures start < i <= |a| && (i < |a| ==> a[i] != a[start])
    ensures forall k :: start <= k < i ==> a[k] == a[start]
  {
    i := start;
    while i + 1 < |a| && a[start] == a[i + 1]
      invariant start <= i < |a|
      invariant forall k :: start <= k <= i ==> a[k] == a[start]
    {
      i := i + 1;
    }
    i := i + 1;
  }

  method PrintSorted(l: seq<Node>, uplinks: nat) returns (out: string)
    ensures out == ListText(l, uplinks)
  {
    hide SortedText, DiffText;
    var a := Arrange(l, uplinks);
    out := "";
    var prev, i := NOWHERE, 0;
    while i < |a|
      invariant 0 <= i <= |a|
      invariant i > 0 ==> prev == a[i - 1]
      invariant out + SortedText(a[i..], prev) == SortedText(a, NOWHERE)
    {
      ghost var was, before := out, prev;
      out := out + DiffText(a[i], prev);
      prev := a[i];
      if i < |a| - 1 {
        out := out + " ";
      }
      var next := RunEnd(a, i);
      RunStep(was, a, i, next, before);
      i := next;
    }
    assert a[i..] == [];
    NothingPrinted(prev);
  }

  // What is printed of a run, and of what follows it.
  lemma RunStep(was: string, a: seq<Node>, i: nat, next: nat, prev: Node)
    requires i < next <= |a| && (forall k :: i <= k < next ==> a[k] == a[i]) && (next < |a| ==> a[next] != a[i])
    ensures was + SortedText(a[i..], prev)
         == was + DiffText(a[i], prev) + (if i < |a| - 1 then " " else "") + SortedText(a[next..], a[i])
    ensures i == |a| - 1 ==> was + DiffText(a[i], prev) + "" == was + DiffText(a[i], prev)
  {
    hide SortedText, DiffText;
    RunPrinted(a[i..], next - i, prev);
    assert a[i..][next - i..] == a[next..];
    var text, blank, rest := DiffText(a[i], prev), if i < |a| - 1 then " " else "", SortedText(a[next..], a[i]);
    Regroup(was, text + blank, rest);
    Regroup(was, text, blank);
  }

  lemma NothingPrinted(prev: Node)
    ensures SortedText([], prev) == "" && forall s: string :: s + SortedText([], prev) == s
  {
    assert SortedText([], prev) == "";
  }

  lemma RunPrinted(a: seq<Node>, g: nat, prev: Node)
    requires 0 < g <= |a| && (forall k :: 0 <= k < g ==> a[k] == a[0]) && (g < |a| ==> a[g] != a[0])
    ensures SortedText(a, prev) == DiffText(a[0], prev) + (if |a| > 1 then " " else "") + SortedText(a[g..], a[0])
  {
    hide DiffText, Dedup;
    DedupRun(a, g);
    var rest := Dedup(a[g..]);
    assert Diffs([a[0]] + rest, prev) == [DiffText(a[0], prev)] + Diffs(rest, a[0]);
    if g < |a| {
      assert TwinEnd(a) == TwinEnd(a[g..]);
    } else {
      assert TwinEnd(a) == (|a| > 1) by { assert a[|a| - 1] == a[0]; }
      assert SortedText(a[g..], a[0]) == "";
    }
  }

  lemma {:induction false} DedupRun(a: seq<Node>, g: nat)
    requires 0 < g <= |a| && (forall k :: 0 <= k < g ==> a[k] == a[0]) && (g < |a| ==> a[g] != a[0])
    ensures Dedup(a) == [a[0]] + Dedup(a[g..])
  {
    if g > 1 {
      assert a[0] == a[1] && a[1..][g - 1..] == a[g..];
      DedupRun(a[1..], g - 1);
    }
  }

  method PrintPassive(l: seq<Node>) returns (out: string)
    ensures out == PassiveText(l)
  {
    out := "";
    var prev, i := NOWHERE, 0;
    while i < |l|
      invariant 0 <= i <= |l|
      invariant out + Join(Diffs(l[i..], prev), ',') == PassiveText(l)
    {
      assert l[i..][1..] == l[i + 1..];
      ghost var was, rest := out, Join(Diffs(l[i + 1..], l[i]), ',');
      out := out + DiffText(l[i], prev);
      assert Diffs(l[i..], prev) == [DiffText(l[i], prev)] + Diffs(l[i + 1..], l[i]);
      if i + 1 < |l| {
        out := out + ",";
        assert was + (DiffText(l[i], prev) + [','] + rest) == out + rest;
      } else {
        assert out + "" == out;
      }
      prev := l[i];
      i := i + 1;
    }
    assert out + "" == out;
  }

  // ---- reading ----

  datatype Lists = Lists(nodes: seq<Node>, passive: seq<Node>)

  function Start(zone: int): Node { Node(zone, -1, -1, -1) }

  // areasbbs_add_string over the tokens that follow the options; the result is None when a
  // "P" stands before the very first address, which reads a variable never set.
  function AddNodes(toks: seq<string>, node: Option<Node>, prev: Node, acc: Lists): Option<Lists> {
    if toks == [] then Some(acc)
    else
      var marked := toks[0] != "" && toks[0][0] == 'P';
      if marked && node.None? then None
      else
        var next := if marked then acc.(passive := acc.passive + [node.value]) else acc;
        var r := ParseDiff(if marked then toks[0][1..] else toks[0], prev);
        if r.None? then Some(next)
        else AddNodes(toks[1..], r, r.value, next.(nodes := next.nodes + [r.value]))
  }

  // areasbbs_add_passive
  function AddPassive(s: string, prev: Node, acc: seq<Node>): seq<Node>
    decreases |s|
  {
    var k := PieceEnd(s);
    var r := ParseDiff(s[..k], prev);
    if r.None? then acc
    else if k == |s| then acc + [r.value]
    else AddPassive(s[k + 1..], r.value, acc + [r.value])
  }

  // Where the first comma is, or the end.
  function PieceEnd(s: string): (k: nat)
    ensures k <= |s| && ',' !in s[..k] && (k < |s| ==> s[k] == ',')
  {
    if s == "" || s[0] == ',' then 0 else assert s[..1 + PieceEnd(s[1..])] == [s[0]] + s[1..][..PieceEnd(s[1..])]; 1 + PieceEnd(s[1..])
  }

  method ReadPassive(s: string, zone: int, l: seq<Node>) returns (r: seq<Node>)
    ensures r == AddPassive(s, Start(zone), l)
  {
    hide ParseDiff, PieceEnd;
    var prev, rest := Start(zone), s;
    r := l;
    while true
      invariant AddPassive(rest, prev, r) == AddPassive(s, Start(zone), l)
      decreases |rest|
    {
      var k := CommaAt(rest);
      var a := ParsePartialText(rest[..k]);
      var n := Completed(a, prev);
      assert n == ParseDiff(rest[..k], prev) by { DiffIsCompleted(rest[..k], prev); }
      if n.None? { return; }
      r := r + [n.value];
      if k == |rest| { return; }
      prev, rest := n.value, rest[k + 1..];
    }
  }

  lemma DiffIsCompleted(s: string, prev: Node)
    ensures ParseDiff(s, prev) == Completed(ParsePartial(s), prev)
  {
  }

  method CommaAt(s: string) returns (k: nat)
    ensures k == PieceEnd(s) && k <= |s|
  {
    k := 0;
    while k < |s| && s[k] != ','
      invariant k <= |s| && PieceEnd(s) == k + PieceEnd(s[k..])
    {
      assert s[k..][1..] == s[k + 1..];
      k := k + 1;
    }
  }

  // ---- reading back what was printed ----

  // An address right after another point of its node, itself being point 0, is printed as nothing.
  predicate Gone(n: Node, prev: Node) {
    SameNode(n, prev) && n.point == 0
  }

  predicate NothingGone(l: seq<Node>) {
    forall i :: 0 < i < |l| ==> !Gone(l[i], l[i - 1])
  }

  // What is left of a printed list.
  function Visible(l: seq<Node>, prev: Node): (r: seq<Node>)
    ensures |r| <= |l|
  {
    if l == [] then [] else (if Gone(l[0], prev) then [] else [l[0]]) + Visible(l[1..], l[0])
  }

  // What is left of a comma-separated list: everything from the first empty piece on is lost.
  function Kept(l: seq<Node>, prev: Node): (r: seq<Node>)
    ensures |r| <= |l|
  {
    if l == [] || Gone(l[0], prev) then [] else [l[0]] + Kept(l[1..], l[0])
  }

  function NonEmpty(ws: seq<string>): seq<string> {
    if ws == [] then [] else (if ws[0] == "" then [] else [ws[0]]) + NonEmpty(ws[1..])
  }

  predicate AllWords(ws: seq<string>) {
    forall i :: 0 <= i < |ws| ==> ws[i] == "" || IsWord(ws[i])
  }

  lemma {:induction false} DiffsAreWords(l: seq<Node>, prev: Node)
    requires AllProper(l)
    ensures AllWords(Diffs(l, prev))
    ensures forall i :: 0 <= i < |l| ==> ',' !in Diffs(l, prev)[i]
  {
    hide DiffText, IsWord;
    if l != [] {
      DiffIsWord(l[0], prev);
      DiffsAreWords(l[1..], l[0]);
      var ws, rest := Diffs(l, prev), Diffs(l[1..], l[0]);
      assert forall i :: 0 < i < |ws| ==> ws[i] == rest[i - 1];
    }
  }

  lemma DiffIsWord(n: Node, prev: Node)
    requires Proper(n)
    ensures var t := DiffText(n, prev); (t == "" || IsWord(t)) && ',' !in t
  {
    hide DiffText;
    DiffShape(n, prev);
    var t := DiffText(n, prev);
    assert forall i :: 0 <= i < |t| ==> t[i] in t;
  }

  // The tokens of words set apart by blanks are the words, but for the empty ones.
  lemma {:induction false} JoinedTokens(ws: seq<string>, tail: string)
    requires AllWords(ws) && (tail == "" || tail == " ")
    ensures Tokens(Join(ws, ' ') + tail) == NonEmpty(ws)
  {
    hide Tokens, IsWord;
    if ws == [] {
      BlankTokens(tail);
      assert "" + tail == tail;
    } else if |ws| == 1 {
      assert ws[0] + tail == Join(ws, ' ') + tail;
      assert NonEmpty(ws[1..]) == [];
      BlankTokens(tail);
      if ws[0] == "" {
        assert "" + tail == tail;
      } else if tail == "" {
        LastWordReadBack(ws[0]);
        assert ws[0] + tail == ws[0];
      } else {
        WordReadBack(ws[0], "");
        BlankTokens("");
        assert ws[0] + " " + "" == ws[0] + tail;
      }
    } else {
      var rest := Join(ws[1..], ' ') + tail;
      JoinedTokens(ws[1..], tail);
      assert Join(ws, ' ') + tail == ws[0] + " " + rest;
      if ws[0] == "" {
        BlankReadBack(rest);
        assert "" + " " + rest == " " + rest;
      } else {
        WordReadBack(ws[0], rest);
      }
    }
  }

  lemma BlankTokens(tail: string)
    requires tail == "" || tail == " "
    ensures Tokens(tail) == []
  {
    assert tail == " " ==> SkipBlanks(tail[1..]) == "";
  }

  // Reading from another address than the one printed against: it must agree where the
  // difference leaves parts out.
  predicate Agrees(l: seq<Node>, prev: Node, seen: Node) {
    l != [] && l[0].zone == prev.zone ==> SameNode(seen, prev)
  }

  lemma {:induction false} NodesReadBack(l: seq<Node>, prev: Node, seen: Node, node: Option<Node>, acc: Lists)
    requires AllProper(l) && Agrees(l, prev, seen)
    ensures AddNodes(NonEmpty(Diffs(l, prev)), node, seen, acc)
         == Some(acc.(nodes := acc.nodes + Visible(l, prev)))
  {
    hide DiffText, ParseDiff;
    if l == [] {
      assert acc.nodes + [] == acc.nodes;
    } else {
      var t := DiffText(l[0], prev);
      DiffShape(l[0], prev);
      var words := NonEmpty(Diffs(l[1..], l[0]));
      assert NonEmpty(Diffs(l, prev)) == (if t == "" then [] else [t]) + words;
      if t == "" {
        assert [] + words == words;
        assert Visible(l, prev) == Visible(l[1..], l[0]);
        NodesReadBack(l[1..], l[0], seen, node, acc);
      } else {
        assert t[0] in t;
        DiffReadBack(l[0], prev, seen);
        assert ([t] + words)[1..] == words;
        var next := acc.(nodes := acc.nodes + [l[0]]);
        NodesReadBack(l[1..], l[0], l[0], Some(l[0]), next);
        assert next.nodes + Visible(l[1..], l[0]) == acc.nodes + ([l[0]] + Visible(l[1..], l[0]));
      }
    }
  }

  // The tokens of a printed list; none of them looks like an option.
  lemma ListTokens(l: seq<Node>, uplinks: nat)
    requires AllProper(l)
    ensures var d := Dedup(Arrange(l, uplinks)); AllProper(d) && Tokens(ListText(l, uplinks)) == NonEmpty(Diffs(d, NOWHERE))
    ensures forall t :: t in Tokens(ListText(l, uplinks)) ==> t != "" && t[0] != '-'
  {
    hide Tokens, Join;
    var a := Arrange(l, uplinks);
    ArrangeProper(l, uplinks);
    DedupProper(a);
    DiffsAreWords(Dedup(a), NOWHERE);
    JoinedTokens(Diffs(Dedup(a), NOWHERE), if TwinEnd(a) then " " else "");
    NonEmptyDiffs(Dedup(a), NOWHERE);
  }

  lemma {:induction false} NonEmptyDiffs(l: seq<Node>, prev: Node)
    requires AllProper(l)
    ensures forall t :: t in NonEmpty(Diffs(l, prev)) ==> t != "" && t[0] != '-'
  {
    hide DiffText;
    if l != [] {
      DiffShape(l[0], prev);
      NonEmptyDiffs(l[1..], l[0]);
      var ws := Diffs(l, prev);
      assert ws == [DiffText(l[0], prev)] + Diffs(l[1..], l[0]);
      assert ws[0] != "" ==> ws[0][0] in ws[0];
    }
  }

  // The whole list, printed and read: the arranged list without repetitions and without
  // what was printed as nothing.
  lemma ListReadBack(l: seq<Node>, uplinks: nat, zone: int, acc: Lists)
    requires AllProper(l) && acc.nodes == []
    ensures AddNodes(Tokens(ListText(l, uplinks)), None, Start(zone), acc)
         == Some(acc.(nodes := Visible(Dedup(Arrange(l, uplinks)), NOWHERE)))
  {
    hide Tokens, ListText, Arrange, Dedup;
    ListTokens(l, uplinks);
    var d := Dedup(Arrange(l, uplinks));
    NodesReadBack(d, NOWHERE, Start(zone), None, acc);
    assert [] + Visible(d, NOWHERE) == Visible(d, NOWHERE);
  }

  lemma ArrangeProper(l: seq<Node>, uplinks: nat)
    requires AllProper(l)
    ensures AllProper(Arrange(l, uplinks)) && |Arrange(l, uplinks)| == |l|
  {
    hide Sorted, Proper;
    if |l| > uplinks {
      SortSorts(l[uplinks..]);
      var r := Sort(l[uplinks..]);
      forall i | 0 <= i < |r| ensures Proper(r[i]) {
        assert r[i] in multiset(r);
        assert r[i] in l[uplinks..];
      }
    }
  }

  lemma {:induction false} DedupProper(l: seq<Node>)
    requires AllProper(l)
    ensures AllProper(Dedup(l))
  {
    if |l| >= 2 {
      DedupProper(l[1..]);
    }
  }

  // A printed list holds only digits, address signs and blanks.
  lemma ListShape(l: seq<Node>, uplinks: nat)
    requires AllProper(l)
    ensures forall c :: c in ListText(l, uplinks) ==> Decimal.IsDigit(c) || c in ":/. "
  {
    hide Join, Diffs;
    var a := Arrange(l, uplinks);
    ArrangeProper(l, uplinks);
    DedupProper(a);
    JoinShape(Dedup(a), NOWHERE);
  }

  lemma {:induction false} JoinShape(l: seq<Node>, prev: Node)
    requires AllProper(l)
    ensures forall c :: c in Join(Diffs(l, prev), ' ') ==> Decimal.IsDigit(c) || c in ":/. "
  {
    hide DiffText;
    if l != [] {
      DiffShape(l[0], prev);
      JoinShape(l[1..], l[0]);
      assert Diffs(l, prev) == [DiffText(l[0], prev)] + Diffs(l[1..], l[0]);
    }
  }

  lemma {:induction false} VisibleProper(l: seq<Node>, prev: Node)
    requires AllProper(l)
    ensures AllProper(Visible(l, prev)) && AllProper(Kept(l, prev))
  {
    hide Proper, Gone;
    if l != [] {
      VisibleProper(l[1..], l[0]);
    }
  }

  lemma {:induction false} PassiveFrom(l: seq<Node>, prev: Node, seen: Node, acc: seq<Node>)
    requires l != [] && AllProper(l) && Agrees(l, prev, seen)
    ensures AddPassive(Join(Diffs(l, prev), ','), seen, acc) == acc + Kept(l, prev)
  {
    hide DiffText, ParseDiff, PieceEnd;
    var t, rest := DiffText(l[0], prev), Join(Diffs(l[1..], l[0]), ',');
    var s := Join(Diffs(l, prev), ',');
    DiffShape(l[0], prev);
    assert Diffs(l, prev) == [t] + Diffs(l[1..], l[0]);
    assert s == if |l| == 1 then t else t + [','] + rest;
    PieceEndIs(t, if |l| == 1 then "" else [','] + rest);
    assert s == t + (if |l| == 1 then "" else [','] + rest);
    assert s[..|t|] == t;
    if t == "" {
      EmptyUnread(seen);
    } else {
      DiffReadBack(l[0], prev, seen);
      assert acc + [l[0]] + Kept(l[1..], l[0]) == acc + ([l[0]] + Kept(l[1..], l[0]));
      if |l| == 1 {
        assert Kept(l[1..], l[0]) == [];
      } else {
        assert s[|t| + 1..] == rest;
        PassiveFrom(l[1..], l[0], l[0], acc + [l[0]]);
      }
    }
  }

  lemma EmptyUnread(seen: Node)
    ensures ParseDiff("", seen) == None
  {
  }

  lemma {:induction false} PieceEndIs(t: string, post: string)
    requires ',' !in t && (post == "" || post[0] == ',')
    ensures PieceEnd(t + post) == |t|
  {
    if t == "" {
      assert t + post == post;
    } else {
      assert (t + post)[1..] == t[1..] + post;
      PieceEndIs(t[1..], post);
    }
  }

  lemma PassiveReadBack(l: seq<Node>, zone: int)
    requires l != [] && AllProper(l)
    ensures AddPassive(PassiveText(l), Start(zone), []) == Kept(l, NOWHERE)
    ensures IsWord(PassiveText(l))
  {
    PassiveFrom(l, NOWHERE, Start(zone), []);
    assert [] + Kept(l, NOWHERE) == Kept(l, NOWHERE);
    PassiveIsWord(l, NOWHERE);
  }

  lemma {:induction false} PassiveIsWord(l: seq<Node>, prev: Node)
    requires l != [] && AllProper(l)
    ensures forall c :: c in Join(Diffs(l, prev), ',') ==> !IsBlank(c) && c != '"'
    ensures !Gone(l[0], prev) ==> IsWord(Join(Diffs(l, prev), ','))
  {
    hide DiffText;
    var s := Join(Diffs(l, prev), ',');
    DiffShape(l[0], prev);
    assert Diffs(l, prev) == [DiffText(l[0], prev)] + Diffs(l[1..], l[0]);
    if |l| > 1 {
      PassiveIsWord(l[1..], l[0]);
    }
    assert s != "" ==> s[0] in s;
    assert forall i :: 0 <= i < |s| ==> s[i] in s;
  }

  // ---- when nothing is lost, and when the text settles ----

  lemma {:induction false} VisibleAll(l: seq<Node>, prev: Node)
    ensures Visible(l, prev) == l <==> (l != [] ==> !Gone(l[0], prev)) && NothingGone(l)
    ensures Kept(l, prev) == l <==> (l != [] ==> !Gone(l[0], prev)) && NothingGone(l)
  {
    hide Gone;
    if l != [] {
      VisibleAll(l[1..], l[0]);
      assert l == [l[0]] + l[1..];
      NothingGoneStep(l);
      if Gone(l[0], prev) {
        assert |Visible(l, prev)| < |l|;
      } else {
        assert Visible(l, prev)[1..] == Visible(l[1..], l[0]) && Kept(l, prev)[1..] == Kept(l[1..], l[0]);
      }
    }
  }

  lemma NothingGoneStep(l: seq<Node>)
    requires l != []
    ensures NothingGone(l) <==> (|l| > 1 ==> !Gone(l[1], l[0])) && NothingGone(l[1..])
  {
    hide Gone;
    var r := l[1..];
    assert forall i :: 0 < i < |r| ==> r[i] == l[i + 1] && r[i - 1] == l[i];
    if NothingGone(r) {
      forall i | 1 < i < |l| ensures !Gone(l[i], l[i - 1]) {
        assert !Gone(r[i - 1], r[i - 2]);
      }
    }
  }

  // Printing loses an address exactly where, in print order, the point-0 address of a node
  // follows another point of it; in the sorted part that can only be its first address.
  lemma LossIsBeforeTheSorted(l: seq<Node>, uplinks: nat)
    requires AllProper(l)
    ensures var a := Arrange(l, uplinks);
      NothingGone(Dedup(a)) <==> forall i :: 0 < i < |a| && i <= uplinks ==> a[i] == a[i - 1] || !Gone(a[i], a[i - 1])
  {
    hide Sort, Sorted;
    var a := Arrange(l, uplinks);
    ArrangeProper(l, uplinks);
    DedupGone(a);
    forall i | uplinks < i < |a| ensures a[i] == a[i - 1] || !Gone(a[i], a[i - 1]) {
      var r := Sort(l[uplinks..]);
      SortSorts(l[uplinks..]);
      SortedStep(r, i - uplinks);
      assert a[i] == r[i - uplinks] && a[i - 1] == r[i - uplinks - 1];
      assert Proper(a[i]) && Proper(a[i - 1]);
    }
  }

  lemma SortedStep(r: seq<Node>, i: nat)
    requires Sorted(r) && 0 < i < |r|
    ensures Compare(r[i - 1], r[i]) <= 0
  {
  }

  predicate LossFree(a: seq<Node>) {
    forall i :: 0 < i < |a| ==> a[i] == a[i - 1] || !Gone(a[i], a[i - 1])
  }

  lemma {:induction false} DedupGone(a: seq<Node>)
    ensures NothingGone(Dedup(a)) <==> LossFree(a)
  {
    hide Gone;
    if |a| >= 2 {
      DedupGone(a[1..]);
      var r := a[1..];
      assert forall i :: 0 < i < |r| ==> r[i] == a[i + 1] && r[i - 1] == a[i];
      if LossFree(r) {
        forall i | 1 < i < |a| ensures a[i] == a[i - 1] || !Gone(a[i], a[i - 1]) {
          assert r[i - 1] == r[i - 2] || !Gone(r[i - 1], r[i - 2]);
        }
      }
      if a[0] != a[1] {
        NothingGoneStep(Dedup(a));
        assert Dedup(a)[1..] == Dedup(r) && Dedup(r)[0] == a[1];
      }
    }
  }

  // A list printed and read is arranged for good: arranging and merging change it no more.
  lemma Settled(l: seq<Node>, uplinks: nat)
    ensures var d := Dedup(Arrange(l, uplinks));
      Arrange(d, uplinks) == d && Dedup(d) == d && !TwinEnd(d)
  {
    hide Sort, Sorted, Dedup, Arrange, TwinEnd;
    var a := Arrange(l, uplinks);
    DedupTwice(a);
    ArrangeTail(l, uplinks);
    if |a| >= uplinks {
      DedupSuffix(a, uplinks);
    }
    ArrangeSorted(Dedup(a), uplinks);
  }

  lemma ArrangeTail(l: seq<Node>, uplinks: nat)
    ensures var a := Arrange(l, uplinks); |a| >= uplinks ==> Sorted(a[uplinks..])
  {
    if |l| > uplinks {
      SortSorts(l[uplinks..]);
      assert Arrange(l, uplinks)[uplinks..] == Sort(l[uplinks..]);
    }
  }

  lemma ArrangeSorted(d: seq<Node>, uplinks: nat)
    requires |d| >= uplinks ==> Sorted(d[uplinks..])
    ensures Arrange(d, uplinks) == d
  {
    hide Sort, Sorted;
    if |d| > uplinks {
      SortOfSorted(d[uplinks..]);
      assert d[..uplinks] + d[uplinks..] == d;
    }
  }

  lemma {:induction false} DedupTwice(a: seq<Node>)
    ensures Dedup(Dedup(a)) == Dedup(a) && !TwinEnd(Dedup(a))
  {
    if |a| >= 2 {
      var r := Dedup(a[1..]);
      DedupTwice(a[1..]);
      if a[0] != a[1] {
        TwiceStep(a[0], r);
        assert Dedup(a) == [a[0]] + r;
      }
    }
  }

  lemma TwiceStep(n: Node, r: seq<Node>)
    requires r != [] && r[0] != n && Dedup(r) == r && !TwinEnd(r)
    ensures Dedup([n] + r) == [n] + r && !TwinEnd([n] + r)
  {
    assert ([n] + r)[1..] == r;
  }

  // What merging leaves behind the first k addresses is a part of what was there, in order.
  lemma {:induction false} DedupSuffix(a: seq<Node>, k: nat)
    requires k <= |a| && Sorted(a[k..])
    ensures |Dedup(a)| >= k ==> Sorted(Dedup(a)[k..])
  {
    hide Compare;
    if |a| >= 2 {
      var r := a[1..];
      if k == 0 {
        assert a[0..] == a && Dedup(a)[0..] == Dedup(a);
        SuffixSorted(a, 1);
        assert r[0..] == r && Dedup(r)[0..] == Dedup(r);
        DedupSuffix(r, 0);
        DedupKeeps(r);
        if a[0] != a[1] {
          assert Dedup(a)[1..] == Dedup(r);
          SortedCons(a[0], Dedup(r), a);
        }
      } else {
        assert a[k..] == r[k - 1..];
        DedupSuffix(r, k - 1);
        if a[0] == a[1] {
          if |Dedup(r)| >= k {
            SuffixSorted(Dedup(r)[k - 1..], 1);
            assert Dedup(r)[k - 1..][1..] == Dedup(r)[k..];
          }
        } else {
          assert |Dedup(a)| >= k ==> Dedup(a)[k..] == Dedup(r)[k - 1..];
        }
      }
    } else {
      assert |a[k..]| < 2 && Dedup(a) == a;
    }
  }

  lemma {:induction false} DedupKeeps(a: seq<Node>)
    ensures forall x :: x in Dedup(a) ==> x in a
  {
    if |a| >= 2 {
      DedupKeeps(a[1..]);
    }
  }

  lemma SortedCons(n: Node, r: seq<Node>, a: seq<Node>)
    requires a != [] && a[0] == n && Sorted(a) && Sorted(r) && forall x :: x in r ==> x in a[1..]
    ensures Sorted([n] + r)
  {
    hide Compare, Sorted;
    assert a == [n] + a[1..];
    assert forall i :: 0 <= i < |r| ==> r[i] in r;
    SortedStart(n, a[1..]);
    SortedStart(n, r);
  }

  lemma SortOfSorted(l: seq<Node>)
    requires Sorted(l)
    ensures Sort(l) == l
  {
    SortSorts(l);
    SortIsUnique(Sort(l), l);
  }

  // Printing the list as read gives the same text, unless the first text ended in a left-over blank.
  lemma TextSettles(l: seq<Node>, uplinks: nat)
    ensures var d := Dedup(Arrange(l, uplinks));
      ListText(d, uplinks) == ListText(l, uplinks) <==> !TwinEnd(Arrange(l, uplinks))
  {
    hide Arrange, Dedup;
    Settled(l, uplinks);
    var a := Arrange(l, uplinks);
    var text := Join(Diffs(Dedup(a), NOWHERE), ' ');
    assert ListText(Dedup(a), uplinks) == text + "" == text;
    assert TwinEnd(a) ==> |ListText(l, uplinks)| == |text| + 1;
    assert !TwinEnd(a) ==> ListText(l, uplinks) == text + "" == text;
  }
}
