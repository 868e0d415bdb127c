// The message-id history: a text file of records and the dbz index over it.
module HistDb {
  import opened Common
  import opened CaseMap
  import opened DbzTable
  import Dbz
  import Decimal

  function Line(msgid: string, t: int): string {
    msgid + "\t" + Decimal.Print(t) + "\n"
  }

  // A line just appended is a record of its id at the old end of the text.
  lemma AppendedRecord(c: Conf, text: string, msgid: string, t: int)
    requires Plain(msgid)
    ensures RecordAt(c, text + Line(msgid, t), Entry(MapCase(c.casemap, msgid), |text|, 0))
  {
    hide MapCase;
    assert (text + Line(msgid, t))[|text|..|text| + |msgid|] == msgid;
  }

  // The bit that says that a stored word has a tag is part of this offset.
  predicate TagBitAt(c: Conf, offset: nat) {
    c.tagged && offset / 0x8000_0000 % 2 == 1
  }

  lemma HasTagIs(c: Conf, offset: nat)
    ensures HasTag(c, offset) <==> TagBitAt(c, offset)
  {
    TagBit(c, offset);
  }

  // Each entry is filed under the mapped form of its id.
  ghost predicate Filed(casemap: char, keys: seq<string>, es: seq<Entry>) {
    |keys| == |es| && forall i :: 0 <= i < |keys| ==> es[i].key == MapCase(casemap, keys[i])
  }

  lemma FiledSnoc(casemap: char, keys: seq<string>, es: seq<Entry>, key: string, e: Entry)
    requires Filed(casemap, keys, es) && e.key == MapCase(casemap, key)
    ensures Filed(casemap, keys + [key], es + [e])
  {
    hide MapCase;
  }

  class History {
    const db: Dbz.Database
    ghost var keys: seq<string>       // the ids behind the index entries, as written

    ghost predicate Valid()
      reads this, db, db.corepag
    {
      && db.Valid()
      && Filed(db.conf.casemap, keys, db.entries)
      && (forall i :: 0 <= i < |db.entries| ==> db.entries[i].off < |db.base|)
    }

    // Is some indexed id one key with this one?
    ghost predicate Holds(msgid: string)
      reads this, db
    {
      exists i :: 0 <= i < |keys| && OneKey(db.conf.casemap, keys[i], msgid)
    }

    // An empty history: empty text, empty .pag; the .dir file empty or made by dbzfresh.
    constructor (dirConf: Option<Conf>)
      requires dirConf.Some? ==> ConfOk(dirConf.value) && !dirConf.value.olddbz
      ensures Valid() && !db.open && keys == [] && db.base == "" && db.corepag == null
      ensures db.conf == (if dirConf.Some? then dirConf.value else DEFAULT)
      ensures fresh(db)
    {
      db := new Dbz.Database.OnDisk("", [], dirConf, 0, map[], []);
      keys := [];
    }

    // hi_init: open the text for append and the index, in core or not.
    method Open(incore: bool) returns (ok: bool)
      requires Valid()
      modifies db
      ensures Valid() && db.open && (db.corepag == old(db.corepag) || fresh(db.corepag))
      ensures ok <==> !old(db.open)
      ensures keys == old(keys) && db.base == old(db.base) && db.conf == old(db.conf)
    {
      var rc := db.Init(incore);
      ok := rc == 0;
    }

    // hi_close
    method Close()
      requires Valid()
      modifies db
      ensures Valid() && !db.open && db.corepag == null
      ensures keys == old(keys) && db.base == old(db.base) && db.conf == old(db.conf)
    {
      if db.open {
        var rc := db.Sync();
        rc := db.Close();
      }
    }

    // dbzsync on an open history, as ftnexpire does.
    method Sync() returns (ok: bool)
      requires Valid()
      modifies db
      ensures Valid() && db.open == old(db.open) && db.conf == old(db.conf) && db.corepag == old(db.corepag)
      ensures keys == old(keys) && db.base == old(db.base)
      ensures ok <==> db.open
    {
      var rc := db.Sync();
      ok := rc == 0;
    }

    // hi_write_t: append the line, then index its offset. The line stays in the text
    // even when the index refuses it.
    method WriteT(t: int, msgid: string) returns (ok: bool)
      requires Valid() && Plain(msgid)
      modifies this, db, db.corepag
      ensures Valid() && db.open == old(db.open) && db.conf == old(db.conf) && db.corepag == old(db.corepag)
      ensures ok <==> old(db.open) && |msgid| < 254 && !TagBitAt(db.conf, |old(db.base)|)
      ensures keys == if ok then old(keys) + [msgid] else old(keys)
      ensures db.base == if old(db.open) then old(db.base) + Line(msgid, t) else old(db.base)
    {
      hide MapCase, HasTag, TagBitAt, FirstVacant, Encode, Place, RecordAt, Dbz.Database.Valid, Filed;
      if !db.open {
        return false;
      }
      var offset := |db.base|;
      HasTagIs(db.conf, offset);
      db.Append(Line(msgid, t));
      var key := msgid + "\0";
      assert key[..|key| - 1] == msgid;
      AppendedRecord(db.conf, old(db.base), msgid, t);
      var rc := db.MappedStore(key, offset);
      ok := rc == 0;
      if ok {
        FiledSnoc(db.conf.casemap, keys, old(db.entries), msgid, db.entries[|db.entries| - 1]);
        keys := keys + [msgid];
      }
    }

    // hi_test
    method Test(msgid: string) returns (found: bool)
      requires Valid() && Plain(msgid)
      modifies db
      ensures Valid() && db.open == old(db.open) && db.conf == old(db.conf) && db.corepag == old(db.corepag)
      ensures keys == old(keys) && db.base == old(db.base)
      ensures found <==> db.open && Holds(msgid)
    {
      hide OneKey;
      var key := msgid + "\0";
      assert key[..|key| - 1] == msgid;
      forall i | 0 <= i < |keys|
        ensures MapCase(db.conf.casemap, keys[i]) == MapCase(db.conf.casemap, msgid)
           <==> OneKey(db.conf.casemap, keys[i], msgid)
      {
        SameMapped(db.conf.casemap, keys[i], msgid);
      }
      var r := db.MappedFetch(key);
      found := r.Some?;
    }
  }
}
