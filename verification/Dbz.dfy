// The dbz database: a .pag file of words, an optional in-core copy of its first table,
// a remembered stream position and a remembered search, all updated in place.
module Dbz {
  import opened Common
  import Hash
  import opened Arith
  import opened CaseMap
  import opened DbzTable

  // struct searcher. I/O never fails here, so there is no `aborted`.
  datatype Searcher = Searcher(place: nat, tabno: nat, run: int, hash: nat, tag: int, seen: bool)

  const NOTFOUND := -1

  // A candidate cannot be read in full, is the record looked for, or is another one.
  datatype Comparison = Short | Same | Other

  // Writing one word of a file at a place, zeros filling any hole before it.
  function PutWord(file: seq<int>, p: nat, v: int): (r: seq<int>)
    ensures |r| == if p < |file| then |file| else p + 1
    ensures r[p] == v
    ensures forall q :: 0 <= q < |file| && q != p ==> r[q] == file[q]
    ensures forall q :: |file| <= q < |r| && q != p ==> r[q] == VACANT
  {
    if p < |file| then file[p := v] else file + seq(p - |file|, _ => VACANT) + [v]
  }

  class Database {
    // The three files. Positions in .pag are counted in words.
    var base: string
    var pag: seq<int>
    var dirConf: Option<Conf>
    var dirUsed: nat

    // The session.
    var open: bool
    var conf: Conf
    var used: nat
    var corepag: array?<int>
    var written: bool
    var pagpos: int              // where we believe the .pag stream is; -1 unknown
    var fpos: nat                // where the .pag stream is
    var srch: Searcher
    var remembered: bool         // prevp == &srch

    ghost var step: nat          // which probe of its path srch stands at
    ghost var table: map<nat, int>
    ghost var entries: seq<Entry>

    function DiskAt(p: nat): int
      reads this`pag
    {
      if p < |pag| then pag[p] else VACANT
    }

    // The one logical table: the in-core words where there are any, else the disk's.
    ghost function At(p: nat): int
      reads this`pag, this`corepag, corepag
    {
      if corepag != null && p < corepag.Length then corepag[p] else DiskAt(p)
    }

    ghost predicate CoreOk()
      reads this`conf, this`pag, this`corepag, this`open, this`written, corepag
    {
      && (corepag != null ==> corepag.Length == conf.tsize && open)
      && (corepag != null && !written ==> forall p :: 0 <= p < corepag.Length ==> corepag[p] == DiskAt(p))
    }

    // The remembered position is the stream's own, or the stream stopped at or past the
    // end of the file and the remembered one ran on; nothing in between.
    ghost predicate PositionOk()
      reads this`conf, this`pag, this`corepag, this`pagpos, this`fpos
    {
      pagpos == -1
      || (pagpos == fpos && (corepag != null ==> conf.tsize <= fpos))
      || (|pag| <= fpos < pagpos && (corepag != null ==> conf.tsize <= fpos))
    }

    // What a later dbminit will read back from the .dir file.
    ghost predicate DirOk()
      reads this`conf, this`pag, this`dirConf, this`dirUsed, this`open, this`written, this`entries
    {
      match dirConf
      case Some(c) => c == conf && !conf.olddbz && (!open || !written ==> dirUsed == |entries|)
      case None =>
        && conf == DEFAULT.(olddbz := conf.olddbz)
        && (conf.olddbz ==> pag != [])
        && (!conf.olddbz && (!open || !written) ==> pag == [] && entries == [])
    }

    ghost predicate SearchOk()
      reads this`conf, this`srch, this`step
      requires ConfOk(conf)
    {
      && srch.place == Slot(conf, srch.hash, step)
      && srch.tabno == TableNo(conf, step)
      && srch.run == RunLeft(conf, step)
      && srch.tag == KeyTag(conf, srch.hash)
    }

    ghost predicate Walked()
      reads this`conf, this`srch, this`step, this`table
      requires ConfOk(conf)
    {
      Walk(conf, table, srch.hash, step)
    }

    ghost predicate RememberedOk()
      reads this
      requires ConfOk(conf)
    {
      remembered ==> SearchOk() && Walked()
    }

    // The words, in core and on disk together, are the table.
    ghost predicate Faithful()
      reads this`conf, this`pag, this`corepag, this`table, corepag
    {
      ConfOk(conf) && forall p: nat :: At(p) == Word(table, p)
    }

    ghost predicate Indexed()
      reads this`conf, this`base, this`table, this`entries
    {
      ConfOk(conf) && Chained(conf, entries) && Denotes(conf, table, entries) && Records(conf, base, entries)
    }

    // The part of the invariant that searching leaves alone.
    ghost predicate Steady()
      reads this`base, this`pag, this`dirConf, this`dirUsed, this`open, this`conf, this`used, this`corepag,
            this`written, this`table, this`entries, corepag
    {
      Faithful() && Indexed() && CoreOk() && DirOk() && (open && !conf.olddbz ==> used == |entries|)
    }

    ghost predicate Valid()
      reads this, corepag
    {
      Steady() && PositionOk() && RememberedOk()
    }

    // An upper bound on the words in use, hence on how far a search can go.
    ghost function Extent(): nat
      reads this`pag, this`conf
    {
      if |pag| < conf.tsize then conf.tsize else |pag|
    }

    ghost function LastProbe(): nat
      reads this`pag, this`conf
    {
      MulNat(conf.maxRun, Extent());
      FirstRun(conf) + conf.maxRun * Extent()
    }

    lemma ConfIsOk()
      requires Steady()
      ensures ConfOk(conf)
    {
    }

    lemma BeyondExtent(h: nat, k: nat)
      requires Steady() && k >= LastProbe()
      ensures Word(table, Slot(conf, h, k)) == VACANT
    {
      hide Slot, Indexed, DirOk;
      PathLeaves(conf, h, Extent(), k);
      assert At(Slot(conf, h, k)) == VACANT;
    }

    // A walk over filled words only cannot be longer than the file allows.
    lemma WalkBounded()
      requires Steady() && Walked()
      ensures step <= LastProbe()
    {
      hide Slot, Indexed, DirOk;
      assert step > 0 ==> Filled(conf, table, srch.hash, step - 1);
      if step > LastProbe() {
        BeyondExtent(srch.hash, step - 1);
      }
    }

    // start
    method Start(key: string, resume: bool)
      requires ConfOk(conf)
      requires resume ==> SearchOk() && Walked()
      modifies this`srch, this`step
      ensures SearchOk() && Walked() && !srch.seen && srch.hash == Hash.Of(key)
      ensures !resume ==> step == 0
    {
      hide Slot, TableNo, RunLeft, Hash.Of;
      var h := Hash.Compute(key);
      PathStart(conf, h);
      if resume && srch.hash == h {
        srch := srch.(seen := false);
      } else {
        srch := Searcher(h % conf.tsize, 0, FirstRun(conf), h, MakeTag(conf, h / conf.tsize), false);
        step := 0;
      }
    }

    // One word of the logical table, from core or from the stream, seeking only when the
    // remembered position does not already say the right place.
    method ReadWord(place: nat) returns (value: int)
      requires ConfOk(conf) && CoreOk() && PositionOk()
      modifies this`pagpos, this`fpos
      ensures PositionOk()
      ensures value == At(place)
    {
      hide Indexed, DirOk;
      if corepag != null && place < conf.tsize {
        value := corepag[place];
      } else {
        var dest := place;
        if pagpos != dest {
          fpos := dest;
          pagpos := dest;
        }
        if fpos < |pag| {
          value := pag[fpos];
          fpos := fpos + 1;
        } else {
          value := VACANT;
        }
        pagpos := pagpos + 1;
      }
    }

    // The first half of search()'s loop body: move to the word to be examined.
    method Advance()
      requires ConfOk(conf) && SearchOk()
      modifies this`srch, this`step
      ensures SearchOk() && srch.seen && srch.hash == old(srch.hash)
      ensures step == old(if srch.seen then step + 1 else step)
    {
      if srch.seen {
        NextProbe(conf, srch.hash, step);
        srch := srch.(run := srch.run - 1);
        if srch.run <= 0 {
          srch := srch.(tabno := srch.tabno + 1, run := conf.maxRun);
        }
        MulNat(srch.tabno, conf.tsize);
        srch := srch.(place := (srch.place + 1) % conf.tsize + srch.tabno * conf.tsize);
        step := step + 1;
      } else {
        srch := srch.(seen := true);
      }
    }

    // search: on to the next word that is vacant or that the tag does not rule out.
    method Search() returns (value: int)
      requires Steady() && PositionOk() && SearchOk() && Walked()
      requires srch.seen ==> Filled(conf, table, srch.hash, step)
      modifies this`srch, this`step, this`pagpos, this`fpos
      ensures PositionOk() && SearchOk() && Walked() && srch.seen && srch.hash == old(srch.hash)
      ensures old(if srch.seen then step + 1 else step) <= step <= LastProbe()
      ensures forall k: nat :: old(if srch.seen then step + 1 else step) <= k < step ==>
                Probe(conf, table, srch.tag, srch.hash, k) == None
      ensures Offers(value)
    {
      hide Slot, TableNo, RunLeft, KeyTag, LastProbe, Indexed, DirOk;
      ghost var from := if srch.seen then step + 1 else step;
      ghost var h, tag := srch.hash, srch.tag;
      while true
        invariant SearchOk() && Walked() && PositionOk() && srch.hash == h && srch.tag == tag
        invariant srch.seen ==> Filled(conf, table, h, step)
        invariant if srch.seen then from <= step + 1 else from == step
        invariant forall k: nat :: from <= k <= step && (k < step || srch.seen) ==>
                    Probe(conf, table, tag, h, k) == None
        decreases LastProbe() - step, !srch.seen
      {
        WalkBounded();
        Advance();
        WalkBounded();
        value := ReadWord(srch.place);
        assert value == Word(table, Slot(conf, h, step));
        if value == VACANT {
          return NOTFOUND;
        }
        value := Unbias(value);
        if !HasTag(conf, value) {
          return value;
        } else if TagOf(conf, value) == srch.tag {
          return NoTag(conf, value);
        }
      }
    }

    // set: fill the vacant word the search stopped at.
    method Set(value: nat)
      requires Faithful() && CoreOk() && PositionOk() && SearchOk()
      requires !HasTag(conf, value) && written
      modifies this`pag, this`pagpos, this`fpos, this`table, corepag
      ensures table == old(table)[srch.place := Encode(conf, srch.hash, value)]
      ensures Faithful() && PositionOk() && CoreOk()
      ensures |pag| >= old(|pag|)
    {
      var place := srch.place;
      var v := value;
      if CanTag(conf, v) && !conf.olddbz {
        v := v + srch.tag + (if conf.tagged then TAGHERE else 0);
        if v == Unbias(VACANT) {
          v := value;
        }
      }
      v := Bias(v);
      assert v == Encode(conf, srch.hash, value);
      table := table[place := v];
      if corepag != null && place < conf.tsize {
        corepag[place] := v;
      } else {
        pagpos := -1;
        pag := PutWord(pag, place, v);
        fpos := place + 1;
      }
      forall p: nat
        ensures At(p) == Word(table, p)
      {
        assert old(At(p)) == Word(old(table), p);
      }
    }

    // Keys as fetch and store are given them: mapped, ending in their only NUL; or, for
    // fetch, cut at DBZMAXKEY characters with no NUL left.
    predicate WholeKey(key: string) {
      key != "" && Plain(key[..|key| - 1]) && key[|key| - 1] == '\0'
    }

    predicate CutKey(key: string) {
      |key| == DBZMAXKEY && Plain(key)
    }

    // fetch's verdict on the candidate at an offset of the base file.
    ghost function Verdict(key: string, off: nat): Comparison
      requires WholeKey(key) || CutKey(key)
      reads this`conf, this`base
    {
      if !Readable(base, off, |key|) then Short
      else if if WholeKey(key) then Hit(conf, base, off, key[..|key| - 1])
              else MapCase(conf.casemap, base[off..off + |key|]) == key
      then Same
      else Other
    }

    // Read keysize bytes at the offset, map their case, compare.
    method Compare(key: string, value: nat) returns (r: Comparison)
      requires WholeKey(key) || CutKey(key)
      ensures r == Verdict(key, value)
    {
      hide MapCase;
      var keysize := |key|;
      var whole := key[keysize - 1] == '\0';
      var cmplen := if whole then keysize - 1 else keysize;
      if value + keysize > |base| {
        return Short;
      }
      var buffer := MapCaseInto(conf.casemap, base[value..value + keysize]);
      var sep := if whole then buffer[keysize - 1] else '\t';
      r := if key[..cmplen] == buffer[..cmplen] && (sep == '\t' || sep == '\0') then Same else Other;
    }

    // What fetch must answer: a cut key is nobody's.
    ghost function Answer(key: string): Option<nat>
      requires WholeKey(key) || CutKey(key)
      reads this`open, this`entries
    {
      if open && WholeKey(key) then Lookup(entries, key[..|key| - 1]) else None
    }

    // No record of the key lies on the first k probes of its path.
    ghost predicate Pending(key: string, k: nat)
      requires WholeKey(key) || CutKey(key)
      reads this`entries
    {
      WholeKey(key) ==> Ahead(entries, key[..|key| - 1], k)
    }

    // The word srch stands at says `value` to the search.
    ghost predicate Offers(value: int)
      reads this`conf, this`table, this`srch, this`step
      requires ConfOk(conf)
    {
      if Filled(conf, table, srch.hash, step) then Probe(conf, table, srch.tag, srch.hash, step) == Some(value)
      else value == NOTFOUND
    }

    lemma ClosedAnswersNone(key: string)
      requires !open && (WholeKey(key) || CutKey(key))
      ensures Answer(key) == None
    {
    }

    lemma NothingPassedYet(key: string)
      requires WholeKey(key) || CutKey(key)
      ensures Pending(key, 0)
    {
    }

    // Words the search passed over on account of their tags hold no record of the key.
    lemma PassedOver(key: string, from: nat)
      requires WholeKey(key) || CutKey(key)
      requires Steady() && SearchOk() && srch.hash == Hash.Of(key) && Pending(key, from)
      requires forall k: nat :: from <= k < step ==> Probe(conf, table, srch.tag, srch.hash, k) == None
      ensures Pending(key, step)
    {
      hide Slot, Place, Hash.Of;
      if WholeKey(key) {
        assert key == key[..|key| - 1] + "\0";
        RuledOutIsOther(conf, table, entries, key[..|key| - 1], from, step);
      }
    }

    // What the verdict on the candidate srch stands at settles.
    lemma Judge(key: string, value: int)
      requires open && (WholeKey(key) || CutKey(key)) && |key| <= DBZMAXKEY
      requires Steady() && srch.hash == Hash.Of(key) && Pending(key, step)
      requires Offers(value) && value != NOTFOUND
      ensures value >= 0
      ensures match Verdict(key, value)
              case Short => Answer(key) == None
              case Same => Answer(key) == Some(value)
              case Other => Pending(key, step + 1)
    {
      hide Slot, Place, Hash.Of, MapCase;
      var j := CandidateIsEntry(conf, base, table, entries, srch.tag, srch.hash, step);
      if WholeKey(key) {
        assert key == key[..|key| - 1] + "\0";
        JudgeWhole(key[..|key| - 1], step, j);
      } else if Readable(base, value, |key|) {
        CutKeyMissesAll(conf, base, entries[j], key);
      }
    }

    lemma JudgeWhole(key: string, k: nat, j: nat)
      requires Steady() && Plain(key) && j < |entries|
      requires Place(conf, entries[j]) == Slot(conf, HashOf(key), k) && Ahead(entries, key, k)
      ensures !Readable(base, entries[j].off, |key| + 1) ==> Lookup(entries, key) == None
      ensures Readable(base, entries[j].off, |key| + 1) ==>
                if Hit(conf, base, entries[j].off, key) then Lookup(entries, key) == Some(entries[j].off)
                else Ahead(entries, key, k + 1)
    {
      hide Slot, HashOf, MapCase, Plain;
      if !Readable(base, entries[j].off, |key| + 1) {
        ShortReadMeansUnknown(conf, base, entries, key, k, j);
      } else {
        HitIffSameKey(conf, base, entries[j], key);
        if entries[j].key == key {
          HitIsEarliest(conf, entries, key, k, j);
        } else {
          MissStepsOn(conf, entries, key, k, j);
        }
      }
    }

    // The search came to a vacant word: the key is not there.
    lemma Exhausted(key: string)
      requires WholeKey(key) || CutKey(key)
      requires Steady() && srch.hash == Hash.Of(key) && Pending(key, step) && Offers(NOTFOUND)
      ensures Answer(key) == None
    {
      hide Slot, Place, Hash.Of;
      if Filled(conf, table, srch.hash, step) {
        var j := CandidateIsEntry(conf, base, table, entries, srch.tag, srch.hash, step);
      } else if WholeKey(key) {
        assert key == key[..|key| - 1] + "\0";
        VacantMeansUnknown(conf, base, table, entries, key[..|key| - 1], step);
      }
    }

    // fetch: the offset of the first record filed under the key, however the search got
    // there; a search that ends in a vacant word is remembered for the next store.
    method Fetch(key: string) returns (r: Option<nat>)
      requires Valid() && (WholeKey(key) || CutKey(key)) && |key| <= DBZMAXKEY
      modifies this`srch, this`step, this`pagpos, this`fpos, this`remembered
      ensures Valid()
      ensures r == Answer(key)
    {
      hide Slot, LastProbe, Hash.Of, Walk, Probe, Filled, Answer, Pending, Steady, PositionOk, Lookup, WholeKey,
        CutKey, Verdict, TableNo, RunLeft, KeyTag;
      remembered := false;
      if !open {
        assert Answer(key) == None by { ClosedAnswersNone(key); }
        return None;
      }
      ConfIsOk();
      Start(key, false);
      var value := Search();
      NothingPassedYet(key);
      PassedOver(key, 0);
      while value != NOTFOUND
        invariant Valid() && SearchOk() && Walked() && srch.seen && !remembered && open
        invariant srch.hash == Hash.Of(key) && step <= LastProbe()
        invariant Pending(key, step) && Offers(value)
        decreases LastProbe() - step
      {
        ghost var k := step;
        Judge(key, value);
        var verdict := Compare(key, value);
        if verdict.Short? {
          return None;
        } else if verdict.Same? {
          return Some(value);
        }
        value := Search();
        PassedOver(key, k + 1);
      }
      Exhausted(key);
      remembered := true;
      return None;
    }

    // The search half of store: on until the first vacant word.
    method SearchVacant(key: string)
      requires Valid() && open
      modifies this`srch, this`step, this`pagpos, this`fpos
      ensures Steady() && PositionOk() && SearchOk() && srch.hash == Hash.Of(key)
      ensures FirstVacant(conf, table, srch.hash, step)
    {
      hide Slot, Hash.Of, Probe, Filled, Faithful, Indexed, CoreOk, DirOk, PositionOk, TableNo, RunLeft, KeyTag,
        LastProbe, Walk;
      ConfIsOk();
      Start(key, remembered);
      var value := Search();
      while value != NOTFOUND
        invariant Steady() && PositionOk() && SearchOk() && Walked() && srch.seen
        invariant srch.hash == Hash.Of(key) && step <= LastProbe() && Offers(value)
        decreases LastProbe() - step
      {
        OfferedIsFilled(value);
        value := Search();
      }
      VacancyFound();
    }

    lemma OfferedIsFilled(value: int)
      requires ConfOk(conf) && Offers(value) && value != NOTFOUND
      ensures Filled(conf, table, srch.hash, step)
    {
    }

    lemma VacancyFound()
      requires Steady() && Walked() && Offers(NOTFOUND)
      ensures FirstVacant(conf, table, srch.hash, step)
    {
      hide Slot, Place;
      if Filled(conf, table, srch.hash, step) {
        var j := CandidateIsEntry(conf, base, table, entries, srch.tag, srch.hash, step);
      }
    }

    // dbzfetch: fetch with case mapping built in; a key too long is cut.
    method MappedFetch(key: string) returns (r: Option<nat>)
      requires Valid() && WholeKey(key)
      modifies this`srch, this`step, this`pagpos, this`fpos, this`remembered
      ensures Valid()
      ensures r == if open && |key| <= DBZMAXKEY then Lookup(entries, MapCase(conf.casemap, key[..|key| - 1])) else None
    {
      hide MapCase, Lookup, Valid, Hash.Of;
      var keysize := if |key| >= DBZMAXKEY then DBZMAXKEY else |key|;
      ghost var name := key[..|key| - 1];
      var mapped := MapCaseInto(conf.casemap, key[..keysize]);
      if keysize == |key| {
        MapWhole(conf.casemap, name);
        assert key[..keysize] == name + "\0";
        assert mapped[..keysize - 1] == MapCase(conf.casemap, name);
      } else {
        MapPlain(conf.casemap, key[..keysize]);
        assert mapped[keysize - 1] != '\0';
      }
      r := Fetch(mapped);
    }

    // The last steps of store, at a vacant word: count, mark the table written, set.
    method Enter(ghost name: string, value: nat)
      requires Steady() && PositionOk() && SearchOk() && open && !remembered
      requires srch.hash == HashOf(name) && FirstVacant(conf, table, srch.hash, step)
      requires RecordAt(conf, base, Entry(name, value, step)) && Storable(conf, Entry(name, value, step))
      requires forall i :: 0 <= i < |entries| ==> entries[i].off < value
      modifies this`pag, this`pagpos, this`fpos, this`table, this`used, this`written, this`entries, corepag
      ensures Valid()
      ensures var e := Entry(name, value, step);
        && entries == old(entries) + [e]
        && table == old(table)[Place(conf, e) := Encode(conf, HashOf(e.key), value)]
    {
      hide Slot, Encode, HashOf, Chained, Denotes, RecordAt, KeyTag, TableNo, RunLeft, HasTag, Walk, Records,
        PositionOk, Plain;
      TagFree();
      used := used + 1;
      written := true;
      ghost var e := Entry(name, value, step);
      ExtendChain(conf, table, entries, e);
      RecordsSnoc(conf, base, entries, e);
      Set(value);
      entries := entries + [e];
    }

    lemma TagFree()
      requires Steady()
      ensures forall i :: 0 <= i < |entries| ==> !HasTag(conf, entries[i].off)
    {
    }

    // store: the record's offset goes to the first vacant word of the key's path,
    // whether the search is fresh or resumes where a fetch stopped.
    method Store(key: string, value: nat) returns (rc: int)
      requires Valid() && WholeKey(key)
      requires RecordAt(conf, base, Entry(key[..|key| - 1], value, 0))
      requires forall i :: 0 <= i < |entries| ==> entries[i].off < value
      modifies this`pag, this`pagpos, this`fpos, this`table, this`srch, this`step, this`remembered, this`used,
               this`written, this`entries, corepag
      ensures Valid()
      ensures rc == if open && Storable(conf, Entry(key[..|key| - 1], value, 0)) then 0 else -1
      ensures rc == -1 ==> entries == old(entries) && table == old(table)
      ensures rc == 0 ==>
                var e := Entry(key[..|key| - 1], value, step);
                && FirstVacant(conf, old(table), HashOf(e.key), e.step)
                && entries == old(entries) + [e]
                && table == old(table)[Place(conf, e) := Encode(conf, HashOf(e.key), value)]
    {
      hide Slot, Encode, Chained, Denotes, MapCase, KeyTag, TableNo, RunLeft, HasTag, Walk, Steady, PositionOk,
        Hash.Of, Place;
      if !open || |key| >= DBZMAXKEY || HasTag(conf, value) {
        return -1;
      }
      ghost var name := key[..|key| - 1];
      assert key == name + "\0";
      SearchVacant(key);
      remembered := false;
      Enter(name, value);
      rc := 0;
    }

    // The text writer appends a record to the base file.
    method Append(more: string)
      requires Valid()
      modifies this`base
      ensures Valid() && base == old(base) + more
    {
      hide Chained, Denotes, Records;
      RecordsAfterAppend(conf, base, more, entries);
      base := base + more;
    }

    // dbzstore: store with case mapping built in.
    method MappedStore(key: string, value: nat) returns (rc: int)
      requires Valid() && WholeKey(key)
      requires RecordAt(conf, base, Entry(MapCase(conf.casemap, key[..|key| - 1]), value, 0))
      requires forall i :: 0 <= i < |entries| ==> entries[i].off < value
      modifies this`pag, this`pagpos, this`fpos, this`table, this`srch, this`step, this`remembered, this`used,
               this`written, this`entries, corepag
      ensures Valid()
      ensures rc == if open && Storable(conf, Entry(MapCase(conf.casemap, key[..|key| - 1]), value, 0)) then 0 else -1
      ensures rc == -1 ==> entries == old(entries) && table == old(table)
      ensures rc == 0 ==>
                var e := Entry(MapCase(conf.casemap, key[..|key| - 1]), value, step);
                && FirstVacant(conf, old(table), HashOf(e.key), e.step)
                && entries == old(entries) + [e]
                && table == old(table)[Place(conf, e) := Encode(conf, HashOf(e.key), value)]
    {
      hide Slot, Encode, MapCase, HasTag, Place, RecordAt, Valid, FirstVacant;
      if |key| >= DBZMAXKEY {
        return -1;
      }
      ghost var name := key[..|key| - 1];
      assert key == name + "\0";
      MapWhole(conf.casemap, name);
      var mapped := MapCaseInto(conf.casemap, key);
      assert mapped[..|mapped| - 1] == MapCase(conf.casemap, name);
      rc := Store(mapped, value);
    }

    // getcore: the first tsize words of the file, short files padded with VACANT.
    method GetCore() returns (core: array<int>)
      requires ConfOk(conf)
      ensures fresh(core) && core.Length == conf.tsize
      ensures forall p :: 0 <= p < core.Length ==> core[p] == DiskAt(p)
    {
      core := new int[conf.tsize];
      var nread := if |pag| < conf.tsize then |pag| else conf.tsize;
      var i := 0;
      while i < nread
        invariant 0 <= i <= nread
        invariant forall p :: 0 <= p < i ==> core[p] == pag[p]
      {
        core[i] := pag[i];
        i := i + 1;
      }
      while i < conf.tsize
        invariant nread <= i <= conf.tsize
        invariant forall p :: 0 <= p < i ==> core[p] == DiskAt(p)
      {
        core[i] := VACANT;
        i := i + 1;
      }
    }

    // dbminit's decision about the in-core table.
    method LoadCore(incore: bool)
      requires Faithful() && corepag == null
      modifies this`corepag
      ensures Faithful() && (corepag == null || fresh(corepag))
      ensures corepag != null ==> corepag.Length == conf.tsize && forall p :: 0 <= p < corepag.Length ==> corepag[p] == DiskAt(p)
    {
      assert forall p: nat :: DiskAt(p) == At(p) == Word(table, p);
      if incore {
        var core := GetCore();
        corepag := core;
        forall p: nat
          ensures At(p) == Word(table, p)
        {
          assert DiskAt(p) == old(DiskAt(p));
        }
      }
    }

    // getconf: what the .dir file says, or the defaults when it is empty.
    method GetConf()
      requires !open && DirOk()
      modifies this`conf, this`used
      ensures conf == old(conf) && (!conf.olddbz ==> used == |entries|)
    {
      match dirConf {
        case Some(c) => conf, used := c, dirUsed;
        case None => conf, used := DEFAULT.(olddbz := pag != []), 0;
      }
    }

    // dbminit: read the configuration back, forget every search and stream position,
    // take the first table into core if asked to.
    method Init(incore: bool) returns (rc: int)
      requires Valid()
      modifies this`conf, this`used, this`open, this`corepag, this`pagpos, this`fpos, this`written, this`remembered
      ensures Valid() && open && conf == old(conf) && (corepag == old(corepag) || fresh(corepag))
      ensures rc == if old(open) then -1 else 0
    {
      hide Indexed, Faithful, SearchOk, Walked;
      if open {
        return -1;
      }
      pagpos := -1;
      fpos := 0;
      GetConf();
      LoadCore(incore);
      open := true;
      written := false;
      remembered := false;
      rc := 0;
      assert CoreOk();
      assert DirOk();
      assert Steady();
    }

    // dbzsync: write the in-core table and the configuration back. Afterwards the disk
    // alone holds the whole table.
    method Sync() returns (rc: int)
      requires Valid()
      modifies this`pag, this`dirConf, this`dirUsed
      ensures Valid()
      ensures rc == if open then 0 else -1
      ensures forall p: nat :: DiskAt(p) == At(p) == Word(table, p)
      ensures open && !conf.olddbz ==>
                if dirConf.Some? then dirUsed == |entries| else pag == [] && entries == []
    {
      hide Chained, Denotes, Records, SearchOk, Walked, Indexed;
      if !open {
        return -1;
      }
      if !written {
        return 0;
      }
      if corepag != null {
        ghost var before := pag;
        pag := corepag[..] + (if |pag| > conf.tsize then pag[conf.tsize..] else []);
        forall p: nat
          ensures DiskAt(p) == At(p) == Word(table, p)
        {
          assert old(At(p)) == Word(table, p);
        }
      }
      if !conf.olddbz {
        dirConf, dirUsed := Some(conf), used;
      }
      rc := 0;
    }

    // dbmclose
    method Close() returns (rc: int)
      requires Valid()
      modifies this`pag, this`dirConf, this`dirUsed, this`corepag, this`open, this`remembered
      ensures Valid() && !open && corepag == null
      ensures rc == if old(open) then 0 else -1
    {
      hide Chained, Denotes, Records, SearchOk, Walked, Indexed;
      if !open {
        return -1;
      }
      rc := Sync();
      corepag := null;
      open := false;
      remembered := false;
    }

    // Any files whose table and base file agree with a list of records, not yet opened.
    constructor OnDisk(base: string, pag: seq<int>, dirConf: Option<Conf>, dirUsed: nat,
                       ghost table: map<nat, int>, ghost entries: seq<Entry>)
      requires var c := match dirConf case Some(c) => c case None => DEFAULT.(olddbz := pag != []);
        && ConfOk(c) && Chained(c, entries) && Denotes(c, table, entries) && Records(c, base, entries)
        && (dirConf.Some? ==> !c.olddbz && dirUsed == |entries|)
      requires forall p: nat :: Word(table, p) == if p < |pag| then pag[p] else VACANT
      requires dirConf == None && pag == [] ==> entries == []
      ensures Valid() && !open && corepag == null
      ensures this.entries == entries && this.table == table && this.base == base && this.pag == pag
      ensures conf == match dirConf case Some(c) => c case None => DEFAULT.(olddbz := pag != [])
    {
      this.base, this.pag, this.dirConf := base, pag, dirConf;
      this.dirUsed, this.used := dirUsed, dirUsed;
      this.conf := match dirConf case Some(c) => c case None => DEFAULT.(olddbz := pag != []);
      this.open, this.written, this.remembered := false, false, false;
      this.corepag, this.pagpos, this.fpos := null, -1, 0;
      this.srch := Searcher(0, 0, 0, 0, 0, false);
      this.step, this.table, this.entries := 0, table, entries;
    }
  }

  // Mapping a terminated key maps the key and keeps its NUL.
  lemma MapWhole(mode: char, name: string)
    requires Plain(name)
    ensures MapCase(mode, name + "\0") == MapCase(mode, name) + "\0"
    ensures Plain(MapCase(mode, name))
  {
    MapCaseSnoc(mode, name, '\0');
    MapPlain(mode, name);
  }

  lemma MapPlain(mode: char, name: string)
    requires Plain(name)
    ensures Plain(MapCase(mode, name))
  {
    forall i | 0 <= i < |name|
      ensures MapCase(mode, name)[i] != '\t' && MapCase(mode, name)[i] != '\0'
    {
      MapCaseKeepsMarks(mode, name, i);
    }
  }
}
