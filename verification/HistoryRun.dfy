// Whole runs over one history: sessions opened in core or not, closed and reopened,
// with writes, syncs and duplicate tests in any order.
module HistoryRun {
  import opened Common
  import opened CaseMap
  import opened DbzTable
  import opened HistDb
  import Decimal

  datatype Op =
    | Open(incore: bool)
    | Close
    | Sync
    | Write(t: int, msgid: string)
    | Test(msgid: string)

  // An id is a C string without the field separator.
  predicate IdsPlain(ops: seq<Op>) {
    forall i :: 0 <= i < |ops| && (ops[i].Write? || ops[i].Test?) ==> Plain(ops[i].msgid)
  }

  // Is the history open after these operations?
  function IsOpen(ops: seq<Op>): bool {
    ops != [] && match ops[|ops| - 1]
    case Open(_) => true
    case Close => false
    case _ => IsOpen(ops[..|ops| - 1])
  }

  // What an operation adds to the history's text: a write a line with the id and the time, even
  // when it fails on the index.
  function Added(op: Op, open: bool): string {
    if op.Write? && open then op.msgid + "\t" + Decimal.Print(op.t) + "\n" else ""
  }

  // The text that the operations leave.
  function TextOf(ops: seq<Op>): string {
    if ops == [] then "" else
    var before := ops[..|ops| - 1];
    TextOf(before) + Added(ops[|ops| - 1], IsOpen(before))
  }

  // Operation j wrote an id that is one key with msgid, and reported success.
  predicate WroteSame(c: Conf, ops: seq<Op>, answers: seq<bool>, j: nat, msgid: string)
    requires j < |ops| == |answers|
  {
    ops[j].Write? && answers[j] && OneKey(c.casemap, ops[j].msgid, msgid)
  }

  // What the answer to operation i must be, in terms of the operations and answers
  // before it alone: no hash, tag, table, probe or in-core copy has a say.
  ghost predicate Exact(c: Conf, ops: seq<Op>, answers: seq<bool>, i: nat)
    requires i < |ops| == |answers|
  {
    match ops[i]
    case Open(_) => answers[i] == !IsOpen(ops[..i])
    case Close => answers[i]
    case Sync => answers[i] == IsOpen(ops[..i])
    case Write(_, msgid) =>
      answers[i] == (IsOpen(ops[..i]) && |msgid| < 254 && !TagBitAt(c, |TextOf(ops[..i])|))
    case Test(msgid) =>
      answers[i] == (IsOpen(ops[..i]) && exists j: nat :: j < i && WroteSame(c, ops, answers, j, msgid))
  }

  ghost predicate AllExact(c: Conf, ops: seq<Op>, answers: seq<bool>) {
    |answers| == |ops| && forall i: nat :: i < |ops| ==> Exact(c, ops, answers, i)
  }

  // The ids of the successful writes, in order.
  function Successes(ops: seq<Op>, answers: seq<bool>): seq<string>
    requires |ops| == |answers|
  {
    if ops == [] then [] else
    var n := |ops| - 1;
    Successes(ops[..n], answers[..n]) + (if ops[n].Write? && answers[n] then [ops[n].msgid] else [])
  }

  lemma {:induction false} SuccessesAreWrites(c: Conf, ops: seq<Op>, answers: seq<bool>, msgid: string)
    requires |ops| == |answers|
    ensures (exists i :: 0 <= i < |Successes(ops, answers)| &&
               OneKey(c.casemap, Successes(ops, answers)[i], msgid))
      <==> exists j: nat :: j < |ops| && WroteSame(c, ops, answers, j, msgid)
  {
    hide OneKey;
    if ops != [] {
      var n := |ops| - 1;
      var ops', answers' := ops[..n], answers[..n];
      SuccessesAreWrites(c, ops', answers', msgid);
      var all, most := Successes(ops, answers), Successes(ops', answers');
      forall j: nat | j < n
        ensures WroteSame(c, ops, answers, j, msgid) == WroteSame(c, ops', answers', j, msgid)
      {
      }
      assert forall i :: 0 <= i < |most| ==> all[i] == most[i];
      if ops[n].Write? && answers[n] {
        assert all[|most|] == ops[n].msgid;
        assert WroteSame(c, ops, answers, n, msgid) <==> OneKey(c.casemap, all[|most|], msgid);
      }
      if j: nat :| j < n && WroteSame(c, ops', answers', j, msgid) {
        assert WroteSame(c, ops, answers, j, msgid);
      }
    }
  }

  // Earlier answers are judged by earlier operations only.
  lemma ExactStays(c: Conf, ops: seq<Op>, answers: seq<bool>, op: Op, answer: bool, i: nat)
    requires i < |ops| == |answers| && Exact(c, ops, answers, i)
    ensures Exact(c, ops + [op], answers + [answer], i)
  {
    hide OneKey, TagBitAt, IsOpen, TextOf;
    assert (ops + [op])[..i] == ops[..i];
    forall j: nat, msgid | j < i
      ensures WroteSame(c, ops + [op], answers + [answer], j, msgid) == WroteSame(c, ops, answers, j, msgid)
    {
    }
  }

  method Step(h: History, op: Op) returns (answer: bool)
    requires h.Valid() && ((op.Write? || op.Test?) ==> Plain(op.msgid))
    modifies h, h.db, h.db.corepag
    ensures h.Valid() && h.db.conf == old(h.db.conf)
    ensures h.db.corepag == old(h.db.corepag) || fresh(h.db.corepag) || h.db.corepag == null
    ensures h.db.open == (if op.Open? then true else if op.Close? then false else old(h.db.open))
    ensures h.keys == if op.Write? && answer then old(h.keys) + [op.msgid] else old(h.keys)
    ensures h.db.base == old(h.db.base) + Added(op, old(h.db.open))
    ensures match op
            case Open(_) => answer == !old(h.db.open)
            case Close => answer
            case Sync => answer == old(h.db.open)
            case Write(_, msgid) =>
              answer == (old(h.db.open) && |msgid| < 254 && !TagBitAt(h.db.conf, old(|h.db.base|)))
            case Test(msgid) => answer == (old(h.db.open) && old(h.Holds(msgid)))
  {
    hide OneKey;
    assert h.db.base + "" == h.db.base;
    match op {
      case Open(incore) => answer := h.Open(incore);
      case Close => h.Close(); answer := true;
      case Sync => answer := h.Sync();
      case Write(t, msgid) => answer := h.WriteT(t, msgid);
      case Test(msgid) => answer := h.Test(msgid);
    }
  }

  // Every answer of every run is exact: a test says yes just when an earlier write of the
  // same id, up to the case of letters where the mode says so, succeeded, through any number of sessions.
  method Run(dirConf: Option<Conf>, ops: seq<Op>) returns (answers: seq<bool>, text: string)
    requires dirConf.Some? ==> ConfOk(dirConf.value) && !dirConf.value.olddbz
    requires IdsPlain(ops)
    ensures AllExact(dirConf.GetOr(Conf(120011, false, true, 'C', 100)), ops, answers)
    ensures text == TextOf(ops)
  {
    hide OneKey, TagBitAt, History.Holds, History.Valid, IsOpen, TextOf, Successes, AllExact, Added;
    ghost var c := if dirConf.Some? then dirConf.value else DEFAULT;
    var h := new History(dirConf);
    answers := [];
    NothingDone(c);
    assert ops[..0] == [];
    while |answers| < |ops|
      invariant |answers| <= |ops|
      invariant h.Valid() && fresh(h) && fresh(h.db) && (h.db.corepag != null ==> fresh(h.db.corepag))
      invariant h.db.conf == c
      invariant h.db.open == IsOpen(ops[..|answers|])
      invariant h.db.base == TextOf(ops[..|answers|])
      invariant h.keys == Successes(ops[..|answers|], answers)
      invariant AllExact(c, ops[..|answers|], answers)
    {
      var i := |answers|;
      ghost var before, answers0 := ops[..i], answers;
      assert ops[..i + 1][..i] == before;
      ghost var holds := ops[i].Test? && h.Holds(ops[i].msgid);
      if ops[i].Test? {
        HoldsMeansWritten(h, before, answers, ops[i].msgid);
      }
      var answer := Step(h, ops[i]);
      answers := answers + [answer];
      ExactLast(c, before, answers0, ops[i], answer, holds);
      assert ops[..i + 1] == before + [ops[i]];
      OneMore(before, answers0, ops[i], answer);
    }
    assert ops[..|answers|] == ops;
    text := h.db.base;
  }

  lemma NothingDone(c: Conf)
    ensures !IsOpen([]) && TextOf([]) == "" && Successes([], []) == [] && AllExact(c, [], [])
  {
  }

  lemma OneMore(ops: seq<Op>, answers: seq<bool>, op: Op, answer: bool)
    requires |ops| == |answers|
    ensures IsOpen(ops + [op]) == (if op.Open? then true else if op.Close? then false else IsOpen(ops))
    ensures TextOf(ops + [op]) == TextOf(ops) + Added(op, IsOpen(ops))
    ensures Successes(ops + [op], answers + [answer])
         == Successes(ops, answers) + if op.Write? && answer then [op.msgid] else []
  {
    hide Added;
    var ops', answers' := ops + [op], answers + [answer];
    assert ops'[..|ops|] == ops && answers'[..|ops|] == answers && ops'[|ops|] == op;
  }

  lemma HoldsMeansWritten(h: History, ops: seq<Op>, answers: seq<bool>, msgid: string)
    requires |ops| == |answers| && h.keys == Successes(ops, answers)
    ensures h.Holds(msgid) <==> exists j: nat :: j < |ops| && WroteSame(h.db.conf, ops, answers, j, msgid)
  {
    hide OneKey;
    SuccessesAreWrites(h.db.conf, ops, answers, msgid);
  }

  lemma ExactLast(c: Conf, ops: seq<Op>, answers: seq<bool>, op: Op, answer: bool, holds: bool)
    requires AllExact(c, ops, answers)
    requires op.Test? ==> (holds <==> exists j: nat :: j < |ops| && WroteSame(c, ops, answers, j, op.msgid))
    requires match op
             case Open(_) => answer == !IsOpen(ops)
             case Close => answer
             case Sync => answer == IsOpen(ops)
             case Write(_, msgid) => answer == (IsOpen(ops) && |msgid| < 254 && !TagBitAt(c, |TextOf(ops)|))
             case Test(msgid) => answer == (IsOpen(ops) && holds)
    ensures AllExact(c, ops + [op], answers + [answer])
  {
    hide OneKey, TagBitAt, IsOpen, TextOf;
    var ops', answers' := ops + [op], answers + [answer];
    assert ops'[..|ops|] == ops;
    if op.Test? {
      forall j: nat | j < |ops|
        ensures WroteSame(c, ops', answers', j, op.msgid) == WroteSame(c, ops, answers, j, op.msgid)
      {
      }
    }
    forall i: nat | i < |ops'|
      ensures Exact(c, ops', answers', i)
    {
      if i < |ops| {
        ExactStays(c, ops, answers, op, answer, i);
      }
    }
  }
}
