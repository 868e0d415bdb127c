// What reading back does to the order of a printed list: when the uplinks at its front stay,
// and what a second printing changes.
module Uplinks {
  import opened Common
  import opened FtnNode
  import opened NodeList

  // A list in print order, printed after `prev` and read back.
  function Back(a: seq<Node>, prev: Node): seq<Node> {
    Visible(Dedup(a), prev)
  }

  predicate Run(a: seq<Node>, g: nat) {
    0 < g <= |a| && (forall i :: 0 <= i < g ==> a[i] == a[0]) && (g < |a| ==> a[g] != a[0])
  }

  lemma FirstRun(a: seq<Node>) returns (g: nat)
    requires a != []
    ensures Run(a, g)
  {
    g := 1;
    while g < |a| && a[g] == a[0]
      invariant 0 < g <= |a| && forall i :: 0 <= i < g ==> a[i] == a[0]
    {
      g := g + 1;
    }
  }

  lemma BackRun(a: seq<Node>, g: nat, prev: Node)
    requires Run(a, g)
    ensures Back(a, prev) == (if Gone(a[0], prev) then [] else [a[0]]) + Back(a[g..], a[0])
  {
    hide Gone, Dedup;
    DedupRun(a, g);
    assert ([a[0]] + Dedup(a[g..]))[1..] == Dedup(a[g..]);
  }

  lemma BackNothing(prev: Node)
    ensures Back([], prev) == []
  {
  }

  // After an address printed as nothing the next one shows, and is another.
  lemma GoneSkipped(a: seq<Node>, g: nat, prev: Node)
    requires Run(a, g) && Gone(a[0], prev)
    ensures Back(a, prev) == Back(a[g..], a[0])
    ensures g < |a| ==> Back(a, prev) != [] && Back(a, prev)[0] == a[g] && a[g] != a[0] && !Gone(a[g], a[0])
    ensures g == |a| ==> Back(a, prev) == []
  {
    hide Back;
    BackRun(a, g, prev);
    assert [] + Back(a[g..], a[0]) == Back(a[g..], a[0]);
    if g == |a| {
      BackNothing(a[0]);
      assert a[g..] == [];
    } else {
      var h := FirstRun(a[g..]);
      BackRun(a[g..], h, a[0]);
    }
  }

  lemma {:induction false} BackFromList(a: seq<Node>, prev: Node)
    ensures forall y :: y in Back(a, prev) ==> y in a
    decreases |a|
  {
    hide Back, Gone;
    if a == [] {
      BackNothing(prev);
    } else {
      var g := FirstRun(a);
      BackRun(a, g, prev);
      BackFromList(a[g..], a[0]);
      InSuffix(a, g);
    }
  }

  lemma InSuffix(a: seq<Node>, g: nat)
    requires g <= |a|
    ensures forall y :: y in a[g..] ==> y in a
  {
  }

  // Nothing that is left would be lost in a second printing.
  lemma {:induction false} BackNothingGone(a: seq<Node>, prev: Node)
    ensures NothingGone(Back(a, prev)) && (Back(a, prev) != [] ==> !Gone(Back(a, prev)[0], prev))
    decreases |a|
  {
    hide Back, NothingGone;
    if a == [] {
      BackNothing(prev);
      assert NothingGone([]) by { FewGone([]); }
    } else {
      var g := FirstRun(a);
      BackNothingGone(a[g..], a[0]);
      var rest := Back(a[g..], a[0]);
      if Gone(a[0], prev) {
        GoneSkipped(a, g, prev);
      } else {
        BackRun(a, g, prev);
        assert ([a[0]] + rest)[1..] == rest;
        hide Gone;
        NothingGoneStep([a[0]] + rest);
      }
    }
  }

  lemma FewGone(l: seq<Node>)
    requires |l| < 2
    ensures NothingGone(l)
  {
  }

  // ---- the uplinks ----

  // Address i is neither a repetition of the one before nor printed as nothing.
  predicate Stands(a: seq<Node>, i: nat)
    requires 0 < i < |a|
  {
    a[i] != a[i - 1] && !Gone(a[i], a[i - 1])
  }

  // The last uplink repeats the one before, and happens to come again behind the node's
  // point 0, which is not printed.
  predicate Doubled(a: seq<Node>, k: nat)
    requires k <= |a|
  {
    && 2 <= k < |a| && a[k - 1] == a[k - 2] && a[k] != a[k - 1] && Gone(a[k], a[k - 1])
    && exists m :: k < m < |a| && a[m] == a[k - 1] && forall j :: k <= j < m ==> a[j] == a[k]
  }

  predicate AllStand(a: seq<Node>, k: nat)
    requires k <= |a|
  {
    forall i :: 0 < i < k ==> Stands(a, i) || (i == k - 1 && Doubled(a, k))
  }

  predicate Leads(p: seq<Node>, l: seq<Node>) {
    |p| <= |l| && l[..|p|] == p
  }

  lemma LeadsCons(n: Node, a: seq<Node>, k: nat, l: seq<Node>)
    requires 0 < k <= |a| && a[0] == n
    ensures Leads(a[..k], [n] + l) <==> Leads(a[1..][..k - 1], l)
  {
    assert a[..k] == [n] + a[1..][..k - 1];
    if Leads(a[..k], [n] + l) {
      assert ([n] + l)[..k] == [n] + l[..k - 1];
      assert ([n] + l[..k - 1])[1..] == l[..k - 1];
      assert ([n] + a[1..][..k - 1])[1..] == a[1..][..k - 1];
    }
  }

  lemma LeadsAt(p: seq<Node>, l: seq<Node>, i: nat)
    requires i < |p|
    ensures Leads(p, l) ==> i < |l| && l[i] == p[i]
  {
    assert Leads(p, l) ==> l[..|p|][i] == l[i];
  }

  // The first k addresses of a list, sorted behind them, are the first k when it is read back,
  // exactly when each of them stands.
  lemma {:induction false} UplinksBack(a: seq<Node>, prev: Node, k: nat)
    requires 0 < k <= |a| && Sorted(a[k..]) && AllProper(a) && !Gone(a[0], prev)
    ensures Leads(a[..k], Back(a, prev)) <==> AllStand(a, k)
    decreases |a|
  {
    hide Back, Gone, Sorted, Proper, Doubled;
    var g := FirstRun(a);
    BackRun(a, g, prev);
    var rest := Back(a[g..], a[0]);
    LeadsCons(a[0], a, k, rest);
    if k == 1 {
      assert a[1..][..0] == [];
    } else if a[1] != a[0] {
      assert g == 1;
      if Gone(a[1], a[0]) {
        GoneLeads(a, k);
      } else {
        assert a[1..][k - 1..] == a[k..];
        UplinksBack(a[1..], a[0], k - 1);
        StandStep(a, k);
      }
    } else {
      RepeatLeads(a, g, k);
      RepeatStands(a, k);
    }
  }

  // An uplink printed as nothing is missing.
  lemma GoneLeads(a: seq<Node>, k: nat)
    requires 2 <= k <= |a| && a[1] != a[0] && Gone(a[1], a[0])
    ensures !Leads(a[1..][..k - 1], Back(a[1..], a[0])) && !AllStand(a, k)
  {
    hide Back, Gone;
    var b := a[1..];
    var g := FirstRun(b);
    GoneSkipped(b, g, a[0]);
    assert b[..k - 1][0] == b[0];
    assert !Stands(a, 1);
    if k == 2 {
      assert !Doubled(a, k);
    }
  }

  lemma StandStep(a: seq<Node>, k: nat)
    requires 2 <= k <= |a| && a[1] != a[0] && !Gone(a[1], a[0])
    ensures AllStand(a, k) <==> AllStand(a[1..], k - 1)
  {
    hide Gone, Doubled;
    var b := a[1..];
    DoubledStep(a, k);
    assert forall i :: 0 < i < |b| ==> Stands(b, i) == Stands(a, i + 1);
    if AllStand(b, k - 1) {
      forall i | 0 < i < k ensures Stands(a, i) || (i == k - 1 && Doubled(a, k)) {
        if i > 1 {
          assert Stands(b, i - 1) || (i - 1 == k - 2 && Doubled(b, k - 1));
        }
      }
    }
    if AllStand(a, k) {
      forall i | 0 < i < k - 1 ensures Stands(b, i) || (i == k - 2 && Doubled(b, k - 1)) {
        assert Stands(a, i + 1) || (i + 1 == k - 1 && Doubled(a, k));
      }
    }
  }

  lemma DoubledStep(a: seq<Node>, k: nat)
    requires 2 <= k <= |a| && a[1] != a[0]
    ensures Doubled(a, k) <==> Doubled(a[1..], k - 1)
  {
    hide Gone;
    var b := a[1..];
    if Doubled(a, k) {
      var m :| k < m < |a| && a[m] == a[k - 1] && forall j :: k <= j < m ==> a[j] == a[k];
      assert b[m - 1] == b[k - 2] && forall j :: k - 1 <= j < m - 1 ==> b[j] == b[k - 1];
    }
    if Doubled(b, k - 1) {
      var m :| k - 1 < m < |b| && b[m] == b[k - 2] && forall j :: k - 1 <= j < m ==> b[j] == b[k - 1];
      assert a[m + 1] == a[k - 1];
      forall j | k <= j < m + 1 ensures a[j] == a[k] {
        assert b[j - 1] == b[k - 1];
      }
    }
  }

  lemma RepeatStands(a: seq<Node>, k: nat)
    requires 2 <= k <= |a| && a[1] == a[0]
    ensures AllStand(a, k) <==> k == 2 && Doubled(a, 2)
  {
    hide Gone, Doubled;
    assert !Stands(a, 1);
  }

  // A repetition among the uplinks is merged, and what follows moves up.
  lemma RepeatLeads(a: seq<Node>, g: nat, k: nat)
    requires Run(a, g) && 2 <= g && 2 <= k <= |a| && Sorted(a[k..]) && AllProper(a)
    ensures Leads(a[1..][..k - 1], Back(a[g..], a[0])) <==> k == 2 && Doubled(a, 2)
  {
    hide Back, Sorted, Proper, Doubled;
    var x, b := a[0], a[g..];
    var rest, want := Back(b, x), a[1..][..k - 1];
    assert want[0] == x;
    if b == [] {
      BackNothing(x);
      NotDoubled(a, g, k);
    } else if !Gone(b[0], x) {
      var h := FirstRun(b);
      BackRun(b, h, x);
      assert rest[0] == b[0];
      NotDoubled(a, g, k);
    } else if g < k {
      BackNothingGone(b, x);
      assert want[g - 2] == a[g - 1] && want[g - 1] == a[g];
      LeadsAt(want, rest, g - 2);
      LeadsAt(want, rest, g - 1);
      NotDoubled(a, g, k);
    } else {
      SortedRepeat(a, g, k);
      AfterGone(a, k);
    }
  }

  lemma NotDoubled(a: seq<Node>, g: nat, k: nat)
    requires Run(a, g) && 2 <= g && 2 <= k <= |a| && (g < |a| ==> !Gone(a[g], a[0]) || g < k)
    ensures !(k == 2 && Doubled(a, 2))
  {
    hide Gone;
  }

  // Sorted, point 0 comes before the other points of its node.
  lemma SortedRepeat(a: seq<Node>, g: nat, k: nat)
    requires Run(a, g) && 2 <= k <= g < |a| && Sorted(a[k..]) && AllProper(a) && Gone(a[g], a[0])
    ensures g == k
  {
    hide Sorted;
    if g > k {
      SortedStep(a[k..], g - k);
    }
  }

  lemma AfterGone(a: seq<Node>, k: nat)
    requires 2 <= k < |a| && Run(a, k) && Sorted(a[k..]) && AllProper(a) && Gone(a[k], a[0])
    ensures Leads(a[1..][..k - 1], Back(a[k..], a[0])) <==> k == 2 && Doubled(a, 2)
  {
    hide Back, Sorted, Proper, Gone, Doubled;
    var x, b := a[0], a[k..];
    var h := FirstRun(b);
    var rest, want := Back(b, x), a[1..][..k - 1];
    GoneSkipped(b, h, x);
    DoubledIs(a, k, h);
    assert a[1] == x && want[0] == x;
    if h < |b| && b[h] == x {
      var c := b[h..];
      var i := FirstRun(c);
      BackRun(c, i, b[0]);
      var tail := Back(c[i..], x);
      assert rest == [x] + tail;
      BackFromList(c[i..], x);
      SortedPast(b, h, i);
      if k == 2 {
        assert want == [x] && rest[..1] == [x];
      } else {
        assert a[2] == x && want[1] == x;
        LeadsAt(want, rest, 1);
        assert tail != [] ==> rest[1] == tail[0] && tail[0] in tail;
      }
    }
  }

  lemma DoubledIs(a: seq<Node>, k: nat, h: nat)
    requires 2 <= k < |a| && Run(a, k) && Run(a[k..], h) && Gone(a[k], a[0])
    ensures Doubled(a, k) <==> k + h < |a| && a[k + h] == a[0]
  {
    hide Gone;
    var b := a[k..];
    if Doubled(a, k) {
      var m :| k < m < |a| && a[m] == a[k - 1] && forall j :: k <= j < m ==> a[j] == a[k];
      assert b[m - k] == a[0];
      assert m - k >= h;
      assert h < |b| ==> b[h] == a[k + h];
    }
    if k + h < |a| && a[k + h] == a[0] {
      forall j | k <= j < k + h ensures a[j] == a[k] {
        assert b[j - k] == b[0];
      }
    }
  }

  // Behind its run an address does not come again in a sorted list.
  lemma SortedPast(b: seq<Node>, h: nat, i: nat)
    requires Sorted(b) && h < |b| && Run(b[h..], i)
    ensures b[h] !in b[h..][i..]
  {
    var c := b[h..];
    assert forall j :: 0 <= j < |c| ==> c[j] == b[h + j];
    if c[0] in c[i..] {
      var j :| 0 <= j < |c[i..]| && c[i..][j] == c[0];
      assert c[i + j] == c[0];
      assert Compare(b[h], b[h + i]) <= 0 && Compare(b[h + i], b[h + i + j]) <= 0;
      CompareOrders(c[0], c[i], c[0]);
    }
  }

  // ---- printing again ----

  // What is left of a list is in print order already.
  lemma {:induction false} BackSorted(a: seq<Node>, prev: Node)
    requires Sorted(a)
    ensures Sorted(Back(a, prev))
    decreases |a|
  {
    hide Back, Sorted, Gone, Compare;
    if a == [] {
      BackNothing(prev);
    } else {
      var g := FirstRun(a);
      BackRun(a, g, prev);
      SuffixSorted(a, g);
      BackSorted(a[g..], a[0]);
      var rest := Back(a[g..], a[0]);
      BackFromList(a[g..], a[0]);
      AtMostRest(a, g, rest);
      SortedStart(a[0], rest);
      assert [] + rest == rest;
    }
  }

  lemma AtMostRest(a: seq<Node>, g: nat, rest: seq<Node>)
    requires Sorted(a) && 0 < g <= |a| && forall y :: y in rest ==> y in a[g..]
    ensures AtMost(a[0], rest)
  {
    hide Compare;
    forall i | 0 <= i < |rest| ensures Compare(a[0], rest[i]) <= 0 {
      assert rest[i] in a[g..];
      var j :| 0 <= j < |a[g..]| && a[g..][j] == rest[i];
      assert a[g + j] == rest[i];
    }
  }

  // Behind the first k addresses it is a part, in order, of what was there.
  lemma {:induction false} BackTailSorted(a: seq<Node>, prev: Node, k: nat)
    requires k <= |a| && Sorted(a[k..])
    ensures |Back(a, prev)| >= k ==> Sorted(Back(a, prev)[k..])
    decreases |a|
  {
    hide Back, Sorted, Gone;
    if a == [] {
      BackNothing(prev);
      assert a[k..] == Back(a, prev)[k..];
    } else {
      var b := Back(a, prev);
      var g := FirstRun(a);
      BackRun(a, g, prev);
      var rest := Back(a[g..], a[0]);
      var n := if g < k then k - g else 0;
      if g < k {
        assert a[g..][n..] == a[k..];
      } else {
        SuffixSorted(a[k..], g - k);
        assert a[k..][g - k..] == a[g..] == a[g..][n..];
      }
      BackTailSorted(a[g..], a[0], n);
      if k == 0 {
        assert a[0..] == a && b[0..] == b;
        BackSorted(a, prev);
      } else if |b| >= k {
        var m := if Gone(a[0], prev) then k else k - 1;
        assert b[k..] == rest[m..] && rest[m..] == rest[n..][m - n..];
        SuffixSorted(rest[n..], m - n);
      }
    }
  }

  // Arranging what was read back changes nothing.
  lemma BackArranged(l: seq<Node>, uplinks: nat)
    ensures var v := Back(Arrange(l, uplinks), NOWHERE);
      Arrange(v, uplinks) == v && Arrange(Dedup(v), uplinks) == Dedup(v)
  {
    hide Back, Sorted, Dedup, Arrange;
    var a := Arrange(l, uplinks);
    var v := Back(a, NOWHERE);
    ArrangeTail(l, uplinks);
    if |a| >= uplinks {
      BackTailSorted(a, NOWHERE, uplinks);
    } else {
      BackShorter(a, NOWHERE);
    }
    ArrangeSorted(v, uplinks);
    if |v| >= uplinks {
      DedupSuffix(v, uplinks);
    }
    ArrangeSorted(Dedup(v), uplinks);
  }

  lemma BackShorter(a: seq<Node>, prev: Node)
    ensures |Back(a, prev)| <= |a| && |Dedup(Back(a, prev))| <= |a|
  {
  }

  // A list with nothing to lose is left as it is but for its repetitions.
  lemma BackOfBack(a: seq<Node>, prev: Node)
    requires NothingGone(a) && (a != [] ==> !Gone(a[0], prev))
    ensures Back(a, prev) == Dedup(a) && NothingGone(Dedup(a))
  {
    hide Gone, Dedup, NothingGone;
    DedupGone(a);
    AllKept(a);
    VisibleAll(Dedup(a), prev);
  }

  lemma AllKept(a: seq<Node>)
    requires NothingGone(a)
    ensures LossFree(a)
  {
  }

  // ---- the text of what was read back ----

  // What a list takes in a line, the separator before it included.
  function Taken(a: seq<Node>, prev: Node): nat {
    if a == [] then 0 else 1 + |SortedText(a, prev)|
  }

  lemma TakenCons(x: Node, w: seq<Node>, prev: Node)
    ensures Taken([x] + w, prev) <= 1 + |DiffText(x, prev)| + Taken(w, x)
  {
    hide DiffText, SortedText;
    var a := [x] + w;
    var g := FirstRun(a);
    RunPrinted(a, g, prev);
    assert a[1..] == w;
    if g == 1 {
      NothingPrinted(x);
    } else {
      assert w[0] == x && a[g..] == w[g - 1..];
      assert Run(w, g - 1) by { assert forall i :: 0 <= i < |w| ==> w[i] == a[i + 1]; }
      RunPrinted(w, g - 1, x);
      NothingPrinted(x);
    }
  }

  lemma TakenRun(a: seq<Node>, g: nat, prev: Node)
    requires Run(a, g)
    ensures Taken(a, prev) >= 1 + |DiffText(a[0], prev)| + Taken(a[g..], a[0])
  {
    hide DiffText, SortedText;
    RunPrinted(a, g, prev);
  }

  lemma TakenSameNode(a: seq<Node>, prev: Node, other: Node)
    requires SameNode(prev, other)
    ensures Taken(a, prev) == Taken(a, other)
  {
    hide DiffText, SortedText, Taken;
    if a != [] {
      var g := FirstRun(a);
      RunPrinted(a, g, prev);
      RunPrinted(a, g, other);
      SameDiff(a[0], prev, other);
    }
    TakenIs(a, prev);
    TakenIs(a, other);
  }

  lemma TakenIs(a: seq<Node>, prev: Node)
    ensures Taken(a, prev) == if a == [] then 0 else 1 + |SortedText(a, prev)|
  {
  }

  lemma SameDiff(n: Node, prev: Node, other: Node)
    requires SameNode(prev, other)
    ensures DiffText(n, prev) == DiffText(n, other)
  {
  }

  // What is left takes less room, unless nothing is lost.
  lemma {:induction false} BackTakesLess(a: seq<Node>, prev: Node)
    requires AllProper(a)
    ensures Taken(Back(a, prev), prev) <= Taken(a, prev)
    ensures Back(a, prev) != Dedup(a) ==> Taken(Back(a, prev), prev) < Taken(a, prev)
    decreases |a|
  {
    hide Back, DiffText, Taken, Gone, Dedup, Proper, SameNode;
    if a == [] {
      BackNothing(prev);
      assert Dedup(a) == [];
    } else {
      var g := FirstRun(a);
      BackRun(a, g, prev);
      DedupRun(a, g);
      BackTakesLess(a[g..], a[0]);
      TakenRun(a, g, prev);
      var v := Back(a[g..], a[0]);
      if Gone(a[0], prev) {
        assert [] + v == v;
        GoneIs(a[0], prev);
        TakenSameNode(v, a[0], prev);
      } else {
        TakenCons(a[0], v, prev);
      }
    }
  }

  lemma GoneIs(n: Node, prev: Node)
    requires Gone(n, prev)
    ensures SameNode(n, prev) && SameNode(prev, n)
  {
  }

  lemma TextShrinks(l: seq<Node>, uplinks: nat)
    requires AllProper(l)
    ensures var v := Visible(Dedup(Arrange(l, uplinks)), NOWHERE);
      && |ListText(v, uplinks)| <= |ListText(l, uplinks)|
      && (v != Dedup(Arrange(l, uplinks)) ==> |ListText(v, uplinks)| < |ListText(l, uplinks)|)
  {
    hide Arrange, Dedup, SortedText, Gone;
    var a := Arrange(l, uplinks);
    ArrangeProper(l, uplinks);
    BackTakesLess(a, NOWHERE);
    BackArranged(l, uplinks);
    NothingPrinted(NOWHERE);
    if a != [] {
      var g := FirstRun(a);
      BackRun(a, g, NOWHERE);
      assert !Gone(a[0], NOWHERE) by { ProperShows(a[0]); }
    }
  }

  lemma ProperShows(n: Node)
    requires Proper(n)
    ensures !Gone(n, NOWHERE)
  {
  }

  // The same of a comma-separated list.
  function TakenPassive(l: seq<Node>, prev: Node): nat {
    if l == [] then 0 else 1 + |Join(Diffs(l, prev), ',')|
  }

  lemma {:induction false} KeptTakesLess(l: seq<Node>, prev: Node)
    ensures TakenPassive(Kept(l, prev), prev) <= TakenPassive(l, prev)
    ensures Kept(l, prev) != l ==> TakenPassive(Kept(l, prev), prev) < TakenPassive(l, prev)
  {
    hide Gone, TakenPassive;
    if l == [] || Gone(l[0], prev) {
      PassiveStep(l, prev);
      assert TakenPassive([], prev) == 0 by { NoPassive(prev); }
    } else {
      var k := Kept(l[1..], l[0]);
      KeptTakesLess(l[1..], l[0]);
      assert ([l[0]] + k)[1..] == k && l == [l[0]] + l[1..];
      PassiveStep(l, prev);
      PassiveStep([l[0]] + k, prev);
    }
  }

  lemma NoPassive(prev: Node)
    ensures TakenPassive([], prev) == 0
  {
  }

  lemma PassiveStep(l: seq<Node>, prev: Node)
    ensures l != [] ==> TakenPassive(l, prev) == 1 + |DiffText(l[0], prev)| + TakenPassive(l[1..], l[0])
  {
    hide DiffText;
    if l != [] {
      var ws := Diffs(l, prev);
      assert ws[1..] == Diffs(l[1..], l[0]);
    }
  }
}
