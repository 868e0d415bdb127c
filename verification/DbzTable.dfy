// The dbz index as mathematics: tagged values, the probe path, and what a table of
// words says about the records of the base file. No state lives here.
module DbzTable {
  import opened Common
  import Hash
  import opened Arith
  import opened CaseMap

  const DBZMAXKEY: nat := 255
  const TAGSHIFT: nat := 0x100_0000        // 1 << 24
  const TAGSPAN: nat := 0x80               // TAGMASK + 1
  const TAGHERE: nat := 0x8000_0000        // TAGENB << 24
  const VACANT := 0

  // tsize, olddbz and casemap of struct dbzconfig; `tagged` says whether the default
  // tag masks are in force or tagging is suppressed; maxRun is MAXRUN.
  datatype Conf = Conf(tsize: nat, olddbz: bool, tagged: bool, casemap: char, maxRun: nat)

  const DEFAULT := Conf(120011, false, true, 'C', 100)

  predicate ConfOk(c: Conf) {
    c.tsize >= 1 && c.maxRun >= 1
  }

  // ---- values in the table ----

  function Bias(o: int): int { o + 1 }

  function Unbias(o: int): int { o - 1 }

  predicate HasTag(c: Conf, o: int) {
    c.tagged && o / TAGHERE % 2 == 1
  }

  lemma TagBit(c: Conf, o: int)
    ensures HasTag(c, o) <==> c.tagged && o / 0x8000_0000 % 2 == 1
  {
  }

  function TagOf(c: Conf, o: int): int {
    if c.tagged then o / TAGSHIFT % TAGSPAN * TAGSHIFT else 0
  }

  function NoTag(c: Conf, o: int): int {
    if c.tagged then o - o / TAGSHIFT % (2 * TAGSPAN) * TAGSHIFT else o
  }

  predicate CanTag(c: Conf, o: int) {
    !c.tagged || o / TAGSHIFT % (2 * TAGSPAN) == 0
  }

  function MakeTag(c: Conf, v: int): int {
    if c.tagged then v % TAGSPAN * TAGSHIFT else 0
  }

  function KeyTag(c: Conf, h: int): int
    requires ConfOk(c)
  {
    MakeTag(c, h / c.tsize)
  }

  // The word set() writes for offset o under hash h.
  function Encode(c: Conf, h: int, o: int): int
    requires ConfOk(c)
  {
    var v := o + KeyTag(c, h) + (if c.tagged then TAGHERE else 0);
    Bias(if CanTag(c, o) && !c.olddbz && v != Unbias(VACANT) then v else o)
  }

  // What search() makes of a word it read: None when the word's tag rules it out.
  function Reading(c: Conf, tag: int, word: int): Option<int> {
    var u := Unbias(word);
    if !HasTag(c, u) then Some(u)
    else if TagOf(c, u) == tag then Some(NoTag(c, u))
    else None
  }

  // A stored word is never taken for an empty slot, and a search for the same hash
  // reads back exactly the offset, tagged or not.
  lemma ReadingEncode(c: Conf, h: int, o: nat)
    requires ConfOk(c) && h >= 0 && !HasTag(c, o)
    ensures Encode(c, h, o) > VACANT
    ensures Reading(c, KeyTag(c, h), Encode(c, h, o)) == Some(o)
  {
    assert h / c.tsize >= 0;
    if CanTag(c, o) && !c.olddbz && c.tagged {
      var t := h / c.tsize % TAGSPAN;
      assert KeyTag(c, h) == t * TAGSHIFT;
      TagArithmetic(o, t);
    }
  }

  lemma TagArithmetic(o: nat, t: nat)
    requires o / TAGSHIFT % (2 * TAGSPAN) == 0 && t < TAGSPAN
    ensures var v := o + t * TAGSHIFT + TAGHERE;
      && v / TAGHERE % 2 == 1
      && v / TAGSHIFT % TAGSPAN == t
      && v / TAGSHIFT % (2 * TAGSPAN) == t + TAGSPAN
  {
    var q, r := o / TAGSHIFT, o % TAGSHIFT;
    var v := o + t * TAGSHIFT + TAGHERE;
    assert v == (q + t + TAGSPAN) * TAGSHIFT + r;
    assert v / TAGSHIFT == q + t + TAGSPAN;
    assert q == 2 * TAGSPAN * (q / (2 * TAGSPAN));
    assert v / TAGHERE == 2 * (q / (2 * TAGSPAN)) + 1;
  }

  // A word read under any tag gives the offset stored or nothing; nothing only when the tag
  // is not that of the hash it was stored under.
  lemma ReadingEncodeAnyTag(c: Conf, h: int, tag: int, o: nat)
    requires ConfOk(c) && h >= 0 && !HasTag(c, o)
    ensures Reading(c, tag, Encode(c, h, o)) in {None, Some(o)}
    ensures Reading(c, tag, Encode(c, h, o)).None? ==> tag != KeyTag(c, h)
    ensures forall k: nat :: tag == KeyTag(c, k) && Reading(c, tag, Encode(c, h, o)).None? ==> k != h
  {
    ReadingEncode(c, h, o);
  }

  // The word itself: with seven bits of the rest of the hash as its tag, and the bit that says
  // so, where the offset leaves these bits free; one more than that, for 0 is vacant.
  lemma StoredWord(c: Conf, h: nat, o: nat)
    requires ConfOk(c)
    ensures Encode(c, h, o) ==
            if c.tagged && !c.olddbz && o / 0x100_0000 % 256 == 0
            then o + h / c.tsize % 128 * 0x100_0000 + 0x8000_0000 + 1 else o + 1
  {
  }

  // ---- the probe path ----

  function FirstRun(c: Conf): nat {
    if c.olddbz then c.tsize else c.maxRun
  }

  // The table that probe number k looks in.
  function TableNo(c: Conf, k: nat): nat
    requires ConfOk(c)
  {
    if k < FirstRun(c) then 0 else 1 + (k - FirstRun(c)) / c.maxRun
  }

  // Probes left in the current table, counting probe k.
  function RunLeft(c: Conf, k: nat): int
    requires ConfOk(c)
  {
    if k < FirstRun(c) then FirstRun(c) - k else c.maxRun - (k - FirstRun(c)) % c.maxRun
  }

  // The word that probe number k looks at: the slot wraps within a table.
  function Slot(c: Conf, h: nat, k: nat): nat
    requires ConfOk(c)
  {
    MulNat(TableNo(c, k), c.tsize);
    TableNo(c, k) * c.tsize + (h % c.tsize + k) % c.tsize
  }

  // The first table has one run, the whole table in an old database; every further one a run of
  // the usual length. Within a table the path wraps.
  lemma ProbeIs(c: Conf, h: nat, k: nat)
    requires ConfOk(c)
    ensures var first := if c.olddbz then c.tsize else c.maxRun;
      Slot(c, h, k) == (if k < first then 0 else (1 + (k - first) / c.maxRun) * c.tsize) + (h + k) % c.tsize
  {
    Wraps(h, k, c.tsize);
  }

  lemma SameSum(x: nat, r: nat, k: nat, h: nat)
    requires h == x + r
    ensures h + k == x + (r + k)
  {
  }

  lemma Wraps(h: nat, k: nat, n: nat)
    requires n >= 1
    ensures (h + k) % n == (h % n + k) % n
  {
    var q, r := h / n, h % n;
    assert h == q * n + r;
    ModAddMultiple(r + k, q, n);
    SameSum(q * n, r, k, h);
  }

  lemma PathStart(c: Conf, h: nat)
    requires ConfOk(c)
    ensures Slot(c, h, 0) == h % c.tsize && TableNo(c, 0) == 0 && RunLeft(c, 0) == FirstRun(c)
  {
    DivModUnique(h % c.tsize, c.tsize, 0, h % c.tsize);
  }

  // search()'s update of place, tabno and run is one step along the path.
  lemma NextProbe(c: Conf, h: nat, k: nat)
    requires ConfOk(c)
    ensures RunLeft(c, k) >= 1
    ensures RunLeft(c, k) - 1 <= 0 ==> TableNo(c, k + 1) == TableNo(c, k) + 1 && RunLeft(c, k + 1) == c.maxRun
    ensures RunLeft(c, k) - 1 > 0 ==> TableNo(c, k + 1) == TableNo(c, k) && RunLeft(c, k + 1) == RunLeft(c, k) - 1
    ensures Slot(c, h, k + 1) == (Slot(c, h, k) + 1) % c.tsize + TableNo(c, k + 1) * c.tsize
  {
    if k >= FirstRun(c) {
      DivModStep(k - FirstRun(c), c.maxRun);
    }
    var i := h % c.tsize + k;
    ModAddMultiple((i % c.tsize) + 1, TableNo(c, k), c.tsize);
    ModSucc(i, c.tsize);
  }

  // Far enough along the path every probe is beyond any given word: the chain of
  // tables is entered one table every maxRun probes.
  lemma PathLeaves(c: Conf, h: nat, bound: nat, k: nat)
    requires ConfOk(c) && k >= FirstRun(c) + c.maxRun * bound
    ensures Slot(c, h, k) >= bound
  {
    var d := k - FirstRun(c);
    DivAtLeast(d, c.maxRun, bound);
    var n := TableNo(c, k);
    assert n == 1 + d / c.maxRun;
    MulNat(n, c.tsize - 1);
    assert n * c.tsize == n * (c.tsize - 1) + n;
  }

  // ---- records, entries and the table ----

  // One indexed record: the mapped key, the offset of its line, and the number of the
  // probe that found the slot it was put in.
  datatype Entry = Entry(key: string, off: nat, step: nat)

  function HashOf(key: string): nat { Hash.Of(key + "\0") }

  function Place(c: Conf, e: Entry): nat
    requires ConfOk(c)
  {
    Slot(c, HashOf(e.key), e.step)
  }

  predicate Plain(s: string) { '\t' !in s && '\0' !in s }

  // The base file holds, at e.off, a line whose key field maps to e.key.
  predicate RecordAt(c: Conf, base: string, e: Entry) {
    && e.off + |e.key| < |base|
    && Plain(base[e.off..e.off + |e.key|])
    && MapCase(c.casemap, base[e.off..e.off + |e.key|]) == e.key
    && base[e.off + |e.key|] == '\t'
  }

  // What store() accepts: a key, with its NUL, under DBZMAXKEY and an offset that does
  // not use the tag-enable bit.
  predicate Storable(c: Conf, e: Entry) {
    |e.key| + 1 < DBZMAXKEY && !HasTag(c, e.off)
  }

  ghost predicate Records(c: Conf, base: string, es: seq<Entry>) {
    && (forall i :: 0 <= i < |es| ==> RecordAt(c, base, es[i]) && Storable(c, es[i]))
    && (forall i, j :: 0 <= i < j < |es| ==> es[i].off < es[j].off)
  }

  // Entries sit in different words, and every probe before an entry's own looks at a
  // word that an earlier entry had already taken.
  ghost predicate Chained(c: Conf, es: seq<Entry>)
    requires ConfOk(c)
  {
    && (forall i, j :: 0 <= i < j < |es| ==> Place(c, es[i]) != Place(c, es[j]))
    && (forall i, k: nat :: 0 <= i < |es| && k < es[i].step ==>
         Taken(c, es[..i], Slot(c, HashOf(es[i].key), k)))
  }

  ghost predicate Taken(c: Conf, es: seq<Entry>, p: nat)
    requires ConfOk(c)
  {
    exists j :: 0 <= j < |es| && Place(c, es[j]) == p
  }

  // A table is a finite map; words outside it are vacant.
  function Word(t: map<nat, int>, p: nat): int {
    if p in t then t[p] else VACANT
  }

  ghost predicate Denotes(c: Conf, t: map<nat, int>, es: seq<Entry>)
    requires ConfOk(c)
  {
    && (forall i :: 0 <= i < |es| ==> Word(t, Place(c, es[i])) == Encode(c, HashOf(es[i].key), es[i].off))
    && (forall p: nat :: Word(t, p) != VACANT ==> Taken(c, es, p))
  }

  // Probe k of hash h's path looks at a filled word.
  predicate Filled(c: Conf, t: map<nat, int>, h: nat, k: nat)
    requires ConfOk(c)
  {
    Word(t, Slot(c, h, k)) != VACANT
  }

  // So do the first n probes.
  ghost predicate Walk(c: Conf, t: map<nat, int>, h: nat, n: nat)
    requires ConfOk(c)
  {
    forall k: nat :: k < n ==> Filled(c, t, h, k)
  }

  // Probe n finds the first vacant word of the path.
  ghost predicate FirstVacant(c: Conf, t: map<nat, int>, h: nat, n: nat)
    requires ConfOk(c)
  {
    Walk(c, t, h, n) && !Filled(c, t, h, n)
  }

  // What probe k says to a search for a tag.
  function Probe(c: Conf, t: map<nat, int>, tag: int, h: nat, k: nat): Option<int>
    requires ConfOk(c)
  {
    Reading(c, tag, Word(t, Slot(c, h, k)))
  }

  // ---- lookups ----

  // The plain meaning of the index: the first record whose key maps to `key`.
  ghost predicate IsEarliest(es: seq<Entry>, key: string, i: nat) {
    i < |es| && es[i].key == key && forall j :: 0 <= j < i ==> es[j].key != key
  }

  ghost predicate Known(es: seq<Entry>, key: string) {
    exists i :: 0 <= i < |es| && es[i].key == key
  }

  ghost function Lookup(es: seq<Entry>, key: string): (r: Option<nat>)
    ensures r.None? <==> !Known(es, key)
    ensures forall i: nat :: IsEarliest(es, key, i) ==> r == Some(es[i].off)
  {
    if es == [] then None
    else
      var init := Lookup(es[..|es| - 1], key);
      var last := es[|es| - 1];
      assert forall i :: 0 <= i < |es| - 1 ==> es[..|es| - 1][i] == es[i];
      assert forall i: nat :: i < |es| - 1 && IsEarliest(es, key, i) ==> IsEarliest(es[..|es| - 1], key, i);
      if init.Some? then init else if last.key == key then Some(last.off) else None
  }

  // fetch()'s test of one candidate: read |key| + 1 bytes at the offset, map their
  // case, compare, and want a separator or NUL after the key.
  predicate Readable(base: string, off: nat, size: nat) {
    off + size <= |base|
  }

  predicate Hit(c: Conf, base: string, off: nat, key: string)
    requires Readable(base, off, |key| + 1)
  {
    var buf := MapCase(c.casemap, base[off..off + |key| + 1]);
    buf[..|key|] == key && (buf[|key|] == '\t' || buf[|key|] == '\0')
  }

  // The test accepts a record exactly when it was filed under the same mapped key: no
  // prefix of a longer key, no key running over the field separator.
  lemma HitIffSameKey(c: Conf, base: string, e: Entry, key: string)
    requires RecordAt(c, base, e) && Plain(key) && Readable(base, e.off, |key| + 1)
    ensures Hit(c, base, e.off, key) <==> e.key == key
  {
    hide MapCase;
    var raw := base[e.off..e.off + |key| + 1];
    if |key| == |e.key| {
      var line := base[e.off..e.off + |e.key|];
      assert raw == line + ['\t'];
      MapCaseSnoc(c.casemap, line, '\t');
      var buf := MapCase(c.casemap, raw);
      assert buf == e.key + ['\t'];
    } else {
      MarkMismatch(c, base, e, key, raw, MapCase(c.casemap, raw));
    }
  }

  lemma MarkMismatch(c: Conf, base: string, e: Entry, key: string, raw: string, buf: string)
    requires RecordAt(c, base, e) && Plain(key) && |key| != |e.key| && Readable(base, e.off, |key| + 1)
    requires raw == base[e.off..e.off + |key| + 1] && buf == MapCase(c.casemap, raw)
    ensures !(buf[..|key|] == key && (buf[|key|] == '\t' || buf[|key|] == '\0'))
  {
    var n, m := |key|, |e.key|;
    if n < m {
      assert raw[n] == base[e.off..e.off + m][n];
      MapCaseKeepsMarks(c.casemap, raw, n);
    } else {
      assert raw[m] == '\t';
      MapCaseKeepsMarks(c.casemap, raw, m);
      assert buf[..n][m] == buf[m];
    }
  }

  // The slot of the earliest record of a key comes first on its path among all records
  // of that key, and everything before it is taken by records of other keys.
  lemma EarliestFirst(c: Conf, es: seq<Entry>, i: nat, j: nat, k: nat)
    requires ConfOk(c) && Chained(c, es)
    requires i < |es| && j < |es| && k < es[i].step
    requires Place(c, es[j]) == Slot(c, HashOf(es[i].key), k)
    ensures j < i
  {
    var j' :| 0 <= j' < |es[..i]| && Place(c, es[..i][j']) == Slot(c, HashOf(es[i].key), k);
    assert es[..i][j'] == es[j'];
  }

  // Of two records filed under one key, the one stored earlier is met earlier.
  lemma StoreOrderIsProbeOrder(c: Conf, es: seq<Entry>, i: nat, j: nat)
    requires ConfOk(c) && Chained(c, es) && i < j < |es| && es[i].key == es[j].key
    ensures es[i].step < es[j].step
  {
    if es[j].step < es[i].step {
      EarliestFirst(c, es, i, j, es[j].step);
    }
  }

  // ---- what a search learns about a key ----

  // No record of the key lies on the first k probes of its path.
  ghost predicate Ahead(es: seq<Entry>, key: string, k: nat) {
    forall i :: 0 <= i < |es| && es[i].key == key ==> k <= es[i].step
  }

  // The probe at an entry's own step yields its offset.
  lemma ProbeOfEntry(c: Conf, t: map<nat, int>, es: seq<Entry>, i: nat)
    requires ConfOk(c) && Denotes(c, t, es) && i < |es| && !HasTag(c, es[i].off)
    ensures var h := HashOf(es[i].key);
      Filled(c, t, h, es[i].step) && Probe(c, t, KeyTag(c, h), h, es[i].step) == Some(es[i].off)
  {
    hide Slot, Reading, Encode, HashOf;
    ReadingEncode(c, HashOf(es[i].key), es[i].off);
    assert Word(t, Place(c, es[i])) == Encode(c, HashOf(es[i].key), es[i].off);
  }

  // A probe that yields an offset met the entry with that offset.
  lemma CandidateIsEntry(c: Conf, base: string, t: map<nat, int>, es: seq<Entry>, tag: int, h: nat, k: nat)
    returns (j: nat)
    requires ConfOk(c) && Denotes(c, t, es) && Records(c, base, es)
    requires Filled(c, t, h, k) && Probe(c, t, tag, h, k).Some?
    ensures j < |es| && Place(c, es[j]) == Slot(c, h, k) && Probe(c, t, tag, h, k) == Some(es[j].off)
  {
    hide Slot, Reading, Encode, HashOf;
    assert Taken(c, es, Slot(c, h, k));
    j :| j < |es| && Place(c, es[j]) == Slot(c, h, k);
    ReadingEncodeAnyTag(c, HashOf(es[j].key), tag, es[j].off);
  }

  // Tags never rule out a record of the key that is searched for.
  lemma RuledOutIsOther(c: Conf, t: map<nat, int>, es: seq<Entry>, key: string, from: nat, to: nat)
    requires ConfOk(c) && Denotes(c, t, es) && Ahead(es, key, from)
    requires forall i :: 0 <= i < |es| ==> !HasTag(c, es[i].off)
    requires forall k: nat :: from <= k < to ==> Probe(c, t, KeyTag(c, HashOf(key)), HashOf(key), k) == None
    ensures Ahead(es, key, to)
  {
    hide Slot, Reading, Encode, HashOf, Probe;
    forall i | 0 <= i < |es| && es[i].key == key
      ensures to <= es[i].step
    {
      ProbeOfEntry(c, t, es, i);
    }
  }

  // A vacant probe ends the search rightly: nothing filed under the key lies beyond it.
  lemma VacantMeansUnknown(c: Conf, base: string, t: map<nat, int>, es: seq<Entry>, key: string, k: nat)
    requires ConfOk(c) && Chained(c, es) && Denotes(c, t, es) && Records(c, base, es)
    requires Ahead(es, key, k) && !Filled(c, t, HashOf(key), k)
    ensures !Known(es, key)
  {
    hide Slot, Reading, Encode, HashOf;
    forall i | 0 <= i < |es|
      ensures es[i].key != key
    {
      if es[i].key == key {
        if k < es[i].step {
          assert Taken(c, es[..i], Slot(c, HashOf(key), k));
          var j :| 0 <= j < i && Place(c, es[..i][j]) == Slot(c, HashOf(key), k);
          assert es[..i][j] == es[j];
          ReadingEncode(c, HashOf(es[j].key), es[j].off);
        } else {
          ProbeOfEntry(c, t, es, i);
        }
      }
    }
  }

  // A candidate too near the end of the base file to be read ends the search rightly:
  // any record of the key further along was stored later and would be readable.
  lemma ShortReadMeansUnknown(c: Conf, base: string, es: seq<Entry>, key: string, k: nat, j: nat)
    requires ConfOk(c) && Chained(c, es) && Records(c, base, es) && Ahead(es, key, k)
    requires j < |es| && Place(c, es[j]) == Slot(c, HashOf(key), k)
    requires !Readable(base, es[j].off, |key| + 1)
    ensures !Known(es, key)
  {
    hide Slot, HashOf;
    forall i | 0 <= i < |es|
      ensures es[i].key != key
    {
      if es[i].key == key {
        assert RecordAt(c, base, es[i]);
        assert Place(c, es[i]) == Slot(c, HashOf(key), es[i].step);
        if k < es[i].step {
          EarliestFirst(c, es, i, j, k);
        }
      }
    }
  }

  // The first candidate of the right key is the earliest record of that key.
  lemma HitIsEarliest(c: Conf, es: seq<Entry>, key: string, k: nat, j: nat)
    requires ConfOk(c) && Chained(c, es) && Ahead(es, key, k)
    requires j < |es| && Place(c, es[j]) == Slot(c, HashOf(key), k) && es[j].key == key
    ensures IsEarliest(es, key, j)
  {
    hide Slot, HashOf;
    forall i | 0 <= i < j
      ensures es[i].key != key
    {
      if es[i].key == key {
        assert Place(c, es[i]) == Slot(c, HashOf(key), es[i].step);
        if k < es[i].step {
          EarliestFirst(c, es, i, j, k);
        }
      }
    }
  }

  // A candidate of another key at probe k leaves the key's records ahead of k + 1.
  lemma MissStepsOn(c: Conf, es: seq<Entry>, key: string, k: nat, j: nat)
    requires ConfOk(c) && Chained(c, es) && Ahead(es, key, k)
    requires j < |es| && Place(c, es[j]) == Slot(c, HashOf(key), k) && es[j].key != key
    ensures Ahead(es, key, k + 1)
  {
    hide Slot, HashOf;
    forall i | 0 <= i < |es| && es[i].key == key
      ensures k + 1 <= es[i].step
    {
      assert Place(c, es[i]) == Slot(c, HashOf(key), es[i].step);
    }
  }

  // A key cut at DBZMAXKEY characters, with no NUL, agrees with no record at all.
  lemma CutKeyMissesAll(c: Conf, base: string, e: Entry, key: string)
    requires RecordAt(c, base, e) && Plain(key) && |e.key| < |key| && Readable(base, e.off, |key|)
    ensures MapCase(c.casemap, base[e.off..e.off + |key|]) != key
  {
    var raw := base[e.off..e.off + |key|];
    assert raw[|e.key|] == '\t';
    MapCaseKeepsMarks(c.casemap, raw, |e.key|);
  }

  // Filling the first vacant word on a key's path keeps the chain.
  lemma ExtendChain(c: Conf, t: map<nat, int>, es: seq<Entry>, e: Entry)
    requires ConfOk(c) && Chained(c, es) && Denotes(c, t, es)
    requires Word(t, Place(c, e)) == VACANT
    requires forall i :: 0 <= i < |es| ==> !HasTag(c, es[i].off)
    requires Walk(c, t, HashOf(e.key), e.step)
    ensures Chained(c, es + [e])
    ensures Denotes(c, t[Place(c, e) := Encode(c, HashOf(e.key), e.off)], es + [e])
  {
    ExtendPlaces(c, t, es, e);
    ExtendPaths(c, t, es, e);
    var t' := t[Place(c, e) := Encode(c, HashOf(e.key), e.off)];
    forall q: nat | Word(t', q) != VACANT
      ensures Taken(c, es + [e], q)
    {
      if q != Place(c, e) {
        assert Word(t, q) != VACANT;
        TakenStays(c, es, e, q);
      } else {
        assert Place(c, (es + [e])[|es|]) == q;
      }
    }
  }

  lemma TakenStays(c: Conf, es: seq<Entry>, e: Entry, p: nat)
    requires ConfOk(c) && Taken(c, es, p)
    ensures Taken(c, es + [e], p)
  {
    var j :| 0 <= j < |es| && Place(c, es[j]) == p;
    assert Place(c, (es + [e])[j]) == p;
  }

  lemma ExtendPlaces(c: Conf, t: map<nat, int>, es: seq<Entry>, e: Entry)
    requires ConfOk(c) && Denotes(c, t, es)
    requires Word(t, Place(c, e)) == VACANT
    requires forall i :: 0 <= i < |es| ==> !HasTag(c, es[i].off)
    ensures forall i :: 0 <= i < |es| ==> Place(c, es[i]) != Place(c, e)
  {
    forall i | 0 <= i < |es|
      ensures Place(c, es[i]) != Place(c, e)
    {
      ReadingEncode(c, HashOf(es[i].key), es[i].off);
    }
  }

  lemma ExtendPaths(c: Conf, t: map<nat, int>, es: seq<Entry>, e: Entry)
    requires ConfOk(c) && Chained(c, es) && Denotes(c, t, es)
    requires Walk(c, t, HashOf(e.key), e.step)
    ensures var es' := es + [e];
      forall i, k: nat :: 0 <= i < |es'| && k < es'[i].step ==> Taken(c, es'[..i], Slot(c, HashOf(es'[i].key), k))
  {
    var es' := es + [e];
    forall i, k: nat | 0 <= i < |es'| && k < es'[i].step
      ensures Taken(c, es'[..i], Slot(c, HashOf(es'[i].key), k))
    {
      if i < |es| {
        assert es'[..i] == es[..i] && es'[i] == es[i];
      } else {
        assert es'[..i] == es && es'[i] == e;
        assert Filled(c, t, HashOf(e.key), k);
      }
    }
  }

  lemma RecordsSnoc(c: Conf, base: string, es: seq<Entry>, e: Entry)
    requires Records(c, base, es) && RecordAt(c, base, e) && Storable(c, e)
    requires forall i :: 0 <= i < |es| ==> es[i].off < e.off
    ensures Records(c, base, es + [e])
  {
    hide MapCase, Plain, HasTag;
  }

  // Appending to the base file leaves every record where it was.
  lemma RecordsAfterAppend(c: Conf, base: string, more: string, es: seq<Entry>)
    requires Records(c, base, es)
    ensures Records(c, base + more, es)
  {
    hide RecordAt, Storable;
    forall i | 0 <= i < |es| ensures RecordAt(c, base + more, es[i]) {
      RecordKept(c, base, more, es[i]);
    }
  }

  lemma RecordKept(c: Conf, base: string, more: string, e: Entry)
    requires RecordAt(c, base, e)
    ensures RecordAt(c, base + more, e)
  {
    hide MapCase, Plain;
    assert (base + more)[e.off..e.off + |e.key|] == base[e.off..e.off + |e.key|];
  }
}
