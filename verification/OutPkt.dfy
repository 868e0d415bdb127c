// The pool of output packets: one file per destination key, at most maxopen of them open
// at a time, the least used one closed to make room and reopened in append mode later.
module OutPkt {
  import opened Common

  // What outpkt_open looks an entry up by.
  datatype Key = Key(from: Node, to: Node, grade: char, kind: char, flav: char, bad: bool)

  // The two output directories.
  datatype Dirs = Dirs(outDir: string, badDir: string)

  // ---- names ----

  const SEQUENCE := 0x10_0000      // sequence numbers are cut to 20 bits

  // The last k hexadecimal digits of a number.
  function Hex(n: nat, k: nat): (s: string)
    ensures |s| == k
  {
    if k == 0 then "" else Hex(n / 16, k - 1) + [LowerChar(HexDigit(n % 16))]
  }

  // "%05lx" of a number below 2^20.
  function Hex5(n: nat): (s: string)
    requires n < SEQUENCE
    ensures |s| == 5
  {
    Hex(n, 5)
  }

  lemma HexDigitInjective(a: nat, b: nat)
    requires a < 16 && b < 16 && LowerChar(HexDigit(a)) == LowerChar(HexDigit(b))
    ensures a == b
  {
  }

  function Power16(k: nat): (p: nat)
    ensures p >= 1
  {
    if k == 0 then 1 else 16 * Power16(k - 1)
  }

  // k digits are enough for the numbers below 16 to the k.
  lemma {:induction false} HexInjective(m: nat, n: nat, k: nat)
    requires m < Power16(k) && n < Power16(k) && Hex(m, k) == Hex(n, k)
    ensures m == n
  {
    hide HexDigit, LowerChar;
    if k > 0 {
      var s, t := Hex(m, k), Hex(n, k);
      assert s[..k - 1] == Hex(m / 16, k - 1) && t[..k - 1] == Hex(n / 16, k - 1);
      assert s[k - 1] == LowerChar(HexDigit(m % 16)) && t[k - 1] == LowerChar(HexDigit(n % 16));
      HexDigitInjective(m % 16, n % 16);
      HexInjective(m / 16, n / 16, k - 1);
    }
  }

  lemma Hex5Injective(m: nat, n: nat)
    requires m < SEQUENCE && n < SEQUENCE && Hex5(m) == Hex5(n)
    ensures m == n
  {
    assert Power16(5) == SEQUENCE by {
      assert Power16(2) == 256 && Power16(3) == 4096 && Power16(4) == 65536;
    }
    HexInjective(m, n, 5);
  }

  // outpkt_outputname: "%s/%c%c%c%05lx.%s"
  function FileName(dirs: Dirs, key: Key, n: nat, ext: string): string
    requires n < SEQUENCE
  {
    (if key.bad then dirs.badDir else dirs.outDir) + "/" + [key.grade, key.kind, key.flav] + Hex5(n) + "." + ext
  }

  // "%x" of the last four bits.
  function HexLetter(n: nat): char {
    "0123456789abcdef"[n % 16]
  }

  // In the directory for bad packets or the other one: grade, type and flavour, five digits.
  predicate IsName(dirs: Dirs, key: Key, n: nat, ext: string, name: string) {
    name == (if key.bad then dirs.badDir else dirs.outDir)
            + ['/', key.grade, key.kind, key.flav, HexLetter(n / 65536), HexLetter(n / 4096), HexLetter(n / 256),
               HexLetter(n / 16), HexLetter(n), '.'] + ext
  }

  lemma HexStep(n: nat, k: nat)
    ensures Hex(n, k + 1) == Hex(n / 16, k) + [HexLetter(n)]
  {
    assert LowerChar(HexDigit(n % 16)) == HexLetter(n) by { HexLetterIs(n % 16); }
  }

  lemma HexLetterIs(d: nat)
    requires d < 16
    ensures LowerChar(HexDigit(d)) == "0123456789abcdef"[d]
  {
  }

  lemma FileNameIs(dirs: Dirs, key: Key, n: nat, ext: string)
    requires n < SEQUENCE
    ensures IsName(dirs, key, n, ext, FileName(dirs, key, n, ext))
  {
    hide Hex, HexLetter;
    var a, b, c, d := n / 16, n / 256, n / 4096, n / 65536;
    assert a / 16 == b && b / 16 == c && c / 16 == d;
    HexStep(n, 4);
    HexStep(a, 3);
    HexStep(b, 2);
    HexStep(c, 1);
    HexStep(d, 0);
    assert Hex(d / 16, 0) == "";
    assert Hex5(n) == [HexLetter(d), HexLetter(c), HexLetter(b), HexLetter(a), HexLetter(n)];
  }

  // Different sequence numbers or extensions make different names, whatever the key.
  lemma FileNameInjective(dirs: Dirs, k: Key, m: nat, ext: string, k': Key, n: nat, ext': string)
    requires m < SEQUENCE && n < SEQUENCE && |ext| == |ext'| == 3
    requires FileName(dirs, k, m, ext) == FileName(dirs, k', n, ext')
    ensures m == n && ext == ext'
  {
    var a, b := FileName(dirs, k, m, ext), FileName(dirs, k', n, ext');
    assert a[|a| - 3..] == ext && b[|b| - 3..] == ext';
    assert a[|a| - 9..|a| - 4] == Hex5(m) && b[|b| - 9..|b| - 4] == Hex5(n);
    Hex5Injective(m, n);
  }

  // The number of the i-th packet after sequence number `base`.
  function Number(base: nat, i: nat): (n: nat)
    ensures n < SEQUENCE
  {
    (base + 1 + i) % SEQUENCE
  }

  lemma NumberInjective(base: nat, i: nat, j: nat)
    requires i < SEQUENCE && j < SEQUENCE && Number(base, i) == Number(base, j)
    ensures i == j
  {
  }

  // ---- what a run of writes should leave behind ----

  // One use of the pool: open the packet for a key, write one message to it. The header
  // is what would be written were the packet new.
  datatype Put = Put(key: Key, header: seq<byte>, message: seq<byte>)

  // The distinct keys in order of first use.
  function Keys(puts: seq<Put>): seq<Key> {
    if puts == [] then [] else
      var ks, k := Keys(puts[..|puts| - 1]), puts[|puts| - 1].key;
      if k in ks then ks else ks + [k]
  }

  // One header and then the key's messages in write order.
  function Packet(puts: seq<Put>, key: Key): seq<byte> {
    if puts == [] then [] else
      var most, p := puts[..|puts| - 1], puts[|puts| - 1];
      if p.key != key then Packet(most, key)
      else if key in Keys(most) then Packet(most, key) + p.message
      else p.header + p.message
  }

  // ---- counting open files ----

  function Count(flags: seq<bool>): nat {
    if flags == [] then 0 else Count(flags[..|flags| - 1]) + (if flags[|flags| - 1] then 1 else 0)
  }

  lemma {:induction false} CountSet(flags: seq<bool>, i: nat, b: bool)
    requires i < |flags|
    ensures Count(flags[i := b]) == Count(flags) + (if b then 1 else 0) - (if flags[i] then 1 else 0)
  {
    var n := |flags| - 1;
    if i < n {
      assert flags[i := b][..n] == flags[..n][i := b];
      CountSet(flags[..n], i, b);
    } else {
      assert flags[i := b][..n] == flags[..n];
    }
  }

  lemma CountSnoc(flags: seq<bool>, b: bool)
    ensures Count(flags + [b]) == Count(flags) + (if b then 1 else 0)
  {
    assert (flags + [b])[..|flags|] == flags;
  }

  lemma {:induction false} CountPositive(flags: seq<bool>, i: nat)
    requires i < |flags| && flags[i]
    ensures Count(flags) >= 1
  {
    if i < |flags| - 1 {
      CountPositive(flags[..|flags| - 1], i);
    }
  }

  lemma {:induction false} CountSome(flags: seq<bool>)
    requires Count(flags) >= 1
    ensures exists i :: 0 <= i < |flags| && flags[i]
  {
    var n := |flags| - 1;
    if !flags[n] {
      CountSome(flags[..n]);
      var i :| 0 <= i < n && flags[..n][i];
      assert flags[i];
    }
  }

  // ---- the pool ----

  class OutPkt {
    const key: Key
    const tmpname: string
    const outname: string
    var fp: bool                   // the FILE pointer is set
    var n: nat                     // messages written to the packet
    ghost var freed: bool          // the entry's memory has been given back

    constructor (key: Key, tmpname: string, outname: string)
      ensures this.key == key && this.tmpname == tmpname && this.outname == outname && !fp && n == 1 && !freed
    {
      this.key, this.tmpname, this.outname := key, tmpname, outname;
      fp, n, freed := false, 1, false;
    }
  }

  // The open packet with the fewest messages, the last of equals.
  ghost predicate Least(list: seq<OutPkt>, flags: seq<bool>, k: nat)
    reads list`n
  {
    && |flags| == |list| && k < |list| && flags[k]
    && forall i :: 0 <= i < |list| && flags[i] ==> list[k].n <= list[i].n && (list[k].n == list[i].n ==> i <= k)
  }

  lemma LeastBefore(list: seq<OutPkt>, flags: seq<bool>, p: OutPkt, k: nat)
    requires Least(list + [p], flags + [false], k) && |flags| == |list|
    ensures Least(list, flags, k) && k < |flags|
  {
    assert forall i :: 0 <= i < |list| ==> (list + [p])[i] == list[i] && (flags + [false])[i] == flags[i];
  }

  lemma LastOfLonger(list: seq<OutPkt>, p: OutPkt)
    ensures (list + [p])[..|list|] == list && (list + [p])[|list|] == p
  {
  }

  lemma FlagsAfter(flags: seq<bool>, k: nat)
    ensures (flags + [false])[|flags| := true] == flags + [true]
    ensures k < |flags| ==> (flags + [false])[k := false][|flags| := true] == flags[k := false] + [true]
  {
  }

  class Pool {
    const dirs: Dirs
    var list: seq<OutPkt>          // outpkt_first .. outpkt_last
    var nopen: int
    var maxopen: int
    var seqn: nat                  // the sequencer's number
    var disk: map<string, seq<byte>>
    ghost var flags: seq<bool>     // which entries hold a live file
    ghost var base: nat            // the sequencer's number when the list was empty

    ghost predicate Linked()
      reads this`list, this`flags, list
    {
      && |flags| == |list|
      && (forall i, j :: 0 <= i < j < |list| ==> list[i] != list[j])
      && (forall i :: 0 <= i < |list| ==> flags[i] == (list[i].fp && !list[i].freed))
    }

    ghost predicate Named()
      reads this`list, this`seqn, this`base
    {
      && |list| <= SEQUENCE && seqn == base + |list|
      && (forall i :: 0 <= i < |list| ==>
           && list[i].tmpname == FileName(dirs, list[i].key, Number(base, i), "tmp")
           && list[i].outname == FileName(dirs, list[i].key, Number(base, i), "pkt"))
    }

    ghost predicate Alive()
      reads this`list, list`freed
    {
      forall i :: 0 <= i < |list| ==> !list[i].freed
    }

    // outpkt_close_ln: close the open packet with the fewest messages, the last of equals.
    method CloseLeast() returns (ok: bool, ghost which: nat)
      requires Linked() && Alive() && nopen == Count(flags)
      modifies this`nopen, this`flags, list`fp
      ensures Linked() && nopen == Count(flags)
      ensures ok <==> old(nopen) >= 1
      ensures nopen == old(nopen) - (if ok then 1 else 0)
      ensures forall i :: 0 <= i < |list| ==> (flags[i] ==> old(flags)[i])
      ensures ok ==> Least(list, old(flags), which) && flags == old(flags)[which := false]
    {
      var min: int, pmin := -1, -1;
      var i := 0;
      while i < |list|
        invariant 0 <= i <= |list|
        invariant if pmin == -1 then min == -1 && forall j :: 0 <= j < i ==> !flags[j]
                  else 0 <= pmin < i && flags[pmin] && min == list[pmin].n
                       && forall j :: 0 <= j < i && flags[j] ==> min <= list[j].n && (min == list[j].n ==> j <= pmin)
      {
        var p := list[i];
        if p.fp && (min == -1 || min >= p.n) {
          pmin, min := i, p.n;
        }
        i := i + 1;
      }
      if pmin >= 0 {
        CountPositive(flags, pmin);
        CountSet(flags, pmin, false);
        nopen := nopen - 1;
        list[pmin].fp := false;
        flags := flags[pmin := false];
        ok, which := true, pmin;
      } else {
        if nopen >= 1 {
          CountSome(flags);
        }
        ok, which := false, 0;
      }
    }

    // outpkt_fopen: make room, then open. The entry the stream goes to is not open yet,
    // so the count runs one ahead of the list.
    method Fopen(name: string, append: bool) returns (ok: bool, ghost which: nat)
      requires Linked() && nopen == Count(flags)
      requires nopen >= maxopen ==> Alive()
      modifies this`nopen, this`flags, this`disk, list`fp
      ensures Linked() && nopen == Count(flags) + (if ok then 1 else 0)
      ensures ok <==> maxopen >= 1
      ensures ok ==> nopen <= maxopen
      ensures forall i :: 0 <= i < |list| ==> (flags[i] ==> old(flags)[i])
      ensures old(nopen) < maxopen ==> flags == old(flags) && unchanged(list)
      ensures ok && old(nopen) == maxopen ==> old(Least(list, flags, which)) && flags == old(flags)[which := false]
      ensures disk == if !ok || (append && name in old(disk)) then old(disk) else old(disk)[name := []]
    {
      CountBounds(flags);
      which := 0;
      while nopen >= maxopen
        invariant Linked() && nopen == Count(flags) && (nopen >= maxopen ==> Alive())
        invariant forall i :: 0 <= i < |list| ==> (flags[i] ==> old(flags)[i])
        invariant old(nopen) < maxopen ==> flags == old(flags) && unchanged(list)
        invariant nopen <= old(nopen) && (nopen == old(nopen) ==> flags == old(flags))
        invariant old(nopen) == maxopen && nopen < maxopen ==> old(Least(list, flags, which)) && flags == old(flags)[which := false]
        invariant disk == old(disk)
        decreases nopen
      {
        var closed;
        closed, which := CloseLeast();
        CountBounds(flags);
        if !closed {
          return false, which;
        }
      }
      if !(append && name in disk) {
        disk := disk[name := []];
      }
      nopen := nopen + 1;
      ok := true;
    }

    // Every entry has its own key and a file of its own.
    ghost predicate Sound()
      reads this, list
    {
      && Linked() && Alive() && Named() && nopen == Count(flags)
      && (forall i, j :: 0 <= i < j < |list| ==> list[i].key != list[j].key)
      && (forall i :: 0 <= i < |list| ==> list[i].tmpname in disk)
    }

    // And never more open than allowed.
    ghost predicate Valid()
      reads this, list
    {
      Sound() && nopen <= maxopen && maxopen >= 1
    }

    lemma NamesDistinct()
      requires Named()
      ensures forall i, j :: 0 <= i < |list| && 0 <= j < |list| ==> list[i].tmpname != list[j].outname
      ensures forall i, j :: 0 <= i < |list| && 0 <= j < |list| && i != j ==>
                list[i].tmpname != list[j].tmpname && list[i].outname != list[j].outname
    {
      hide FileName, Number;
      forall i, j | 0 <= i < |list| && 0 <= j < |list|
        ensures list[i].tmpname != list[j].outname
        ensures i != j ==> list[i].tmpname != list[j].tmpname && list[i].outname != list[j].outname
      {
        NamesOf(dirs, list[i].key, list[j].key, base, i, j);
      }
    }

    constructor (dirs: Dirs, maxopen: int, seqn: nat, disk: map<string, seq<byte>>)
      requires maxopen >= 1
      ensures Valid() && list == [] && nopen == 0
      ensures this.dirs == dirs && this.maxopen == maxopen && this.seqn == base == seqn && this.disk == disk
    {
      this.dirs, this.maxopen, this.seqn, this.disk := dirs, maxopen, seqn, disk;
      list, nopen, flags, base := [], 0, [], seqn;
    }

    // outpkt_set_maxopen. Below what is open, the next file opened makes room again; but
    // closing the pool first may go astray.
    method SetMaxOpen(n: int)
      requires Sound()
      modifies this`maxopen
      ensures Sound() && maxopen == n && (nopen <= n && n >= 1 ==> Valid())
    {
      maxopen := n;
    }

    // Marking the i-th entry's stream live.
    method SetOpen(p: OutPkt, ghost i: nat)
      requires Linked() && i < |list| && p == list[i] && !flags[i] && !p.freed
      modifies p`fp, this`flags
      ensures Linked() && flags == old(flags)[i := true]
      ensures Count(flags) == old(Count(flags)) + 1
    {
      CountSet(flags, i, true);
      p.fp := true;
      flags := flags[i := true];
    }

    // The search of outpkt_open.
    method Find(key: Key) returns (k: nat)
      ensures k <= |list| && forall i :: 0 <= i < k ==> list[i].key != key
      ensures k < |list| ==> list[k].key == key
    {
      k := 0;
      while k < |list| && list[k].key != key
        invariant k <= |list| && forall i :: 0 <= i < k ==> list[i].key != key
      {
        k := k + 1;
      }
    }

    // An entry that exists: one message more, its file reopened if it had been closed.
    method Reuse(k: nat)
      requires Valid() && k < |list|
      modifies this`nopen, this`flags, this`disk, list`fp, list`n
      ensures Valid() && flags[k] && disk == old(disk)
      ensures list[k].n == old(list[k].n) + 1
    {
      hide FileName, Number, Count;
      list[k].n := list[k].n + 1;
      if !list[k].fp {
        var ok, _ := Fopen(list[k].tmpname, true);
        SetOpen(list[k], k);
      }
    }

    // outpkt_new and outpkt_names: a closed entry at the end of the list.
    method Enlist(key: Key) returns (p: OutPkt)
      requires Linked() && Alive() && Named() && |list| < SEQUENCE
      modifies this`list, this`flags, this`seqn
      ensures Linked() && Alive() && Named() && fresh(p)
      ensures list == old(list) + [p] && flags == old(flags) + [false] && p.key == key && p.n == 1
      ensures !p.fp && !p.freed
      ensures Count(flags) == Count(old(flags))
    {
      hide FileName;
      seqn := seqn + 1;
      var n := seqn % SEQUENCE;
      p := new OutPkt(key, FileName(dirs, key, n, "tmp"), FileName(dirs, key, n, "pkt"));
      CountSnoc(flags, false);
      list := list + [p];
      flags := flags + [false];
    }

    // A key met for the first time: a new file holding a header.
    method Create(key: Key, header: seq<byte>) returns (ghost which: nat)
      requires Valid() && |list| < SEQUENCE && forall i :: 0 <= i < |list| ==> list[i].key != key
      modifies this`nopen, this`flags, this`disk, this`list, this`seqn, list`fp
      ensures Valid() && |list| == |old(list)| + 1 && list[..|old(list)|] == old(list)
      ensures var p := list[|old(list)|];
        fresh(p) && p.key == key && p.n == 1 && flags[|old(list)|] && disk == old(disk)[p.tmpname := header]
      ensures old(nopen) < maxopen ==> flags == old(flags) + [true]
      ensures old(nopen) == maxopen ==> old(Least(list, flags, which)) && flags == old(flags)[which := false] + [true]
    {
      hide FileName, Number, Count, Least, Named, Alive, Linked;
      SameSize();
      var p := Enlist(key);
      forall j: nat | Least(list, flags, j) ensures Least(old(list), old(flags), j) && j < |old(flags)| {
        LeastBefore(old(list), old(flags), p, j);
      }
      which := Begin(p, |old(list)|, header);
      FlagsAfter(old(flags), which);
      LastOfLonger(old(list), p);
    }

    lemma SameSize()
      requires Linked()
      ensures |flags| == |list|
    {
    }

    // Its file is opened and begun.
    method Begin(p: OutPkt, ghost i: nat, header: seq<byte>) returns (ghost which: nat)
      requires Linked() && Alive() && nopen == Count(flags) <= maxopen && maxopen >= 1
      requires i < |list| && p == list[i] && !p.fp && !p.freed && !flags[i]
      modifies this`nopen, this`flags, this`disk, list`fp
      ensures Linked() && nopen == Count(flags) <= maxopen && flags[i]
      ensures disk == old(disk)[p.tmpname := header]
      ensures old(nopen) < maxopen ==> flags == old(flags)[i := true]
      ensures old(nopen) == maxopen ==> old(Least(list, flags, which)) && flags == old(flags)[which := false][i := true]
    {
      hide Count, Least, Alive;
      var ok;
      ok, which := Fopen(p.tmpname, false);
      SetOpen(p, i);
      disk := disk[p.tmpname := disk[p.tmpname] + header];
      assert [] + header == header;
    }

    // outpkt_open
    method Open(key: Key, header: seq<byte>) returns (k: nat)
      requires Valid() && (|list| < SEQUENCE || exists i :: 0 <= i < |list| && list[i].key == key)
      modifies this`nopen, this`flags, this`disk, this`list, this`seqn, list`fp, list`n
      ensures Valid() && k < |list| && list[k].key == key && flags[k]
      ensures if exists i :: 0 <= i < |old(list)| && old(list)[i].key == key
              then list == old(list) && disk == old(disk)
              else k == |old(list)| && |list| == k + 1 && list[..k] == old(list) && fresh(list[k])
                   && disk == old(disk)[list[k].tmpname := header]
    {
      hide FileName, Number, Count, Linked, Named, Alive;
      k := Find(key);
      if k < |list| {
        Reuse(k);
      } else {
        var _ := Create(key, header);
      }
    }

    // The entries without their streams and counts.
    ghost function Infos(): (r: seq<Info>)
      reads this`list
      ensures |r| == |list|
      ensures forall i :: 0 <= i < |list| ==> r[i] == Info(list[i].key, list[i].tmpname, list[i].outname)
    {
      InfosOf(list)
    }

    lemma InfosDistinct()
      requires Named()
      ensures Distinct(Infos())
    {
      hide FileName, Number;
      NamesDistinct();
    }

    // Open the packet of a key and write a message to the stream that comes back.
    method Write(put: Put, ghost puts: seq<Put>, ghost disk0: map<string, seq<byte>>)
      requires Valid() && |Keys(puts + [put])| <= SEQUENCE && Filed(Infos(), disk, puts) && Others(Infos(), disk, disk0)
      modifies this`nopen, this`flags, this`disk, this`list, this`seqn, list`fp, list`n
      ensures Valid() && Filed(Infos(), disk, puts + [put]) && Others(Infos(), disk, disk0)
      ensures forall k :: 0 <= k < |list| ==> (k < |old(list)| && list[k] == old(list)[k]) || fresh(list[k])
    {
      hide FileName, Number, Count, Filed, Others, Distinct, Linked, Named, Alive, InfosOf, Keys, Packet;
      ghost var infos, was := Infos(), disk;
      RoomFor(puts, put);
      var k := Open(put.key, put.header);
      assert Distinct(Infos()) by { InfosAreDistinct(); }
      var name := list[k].tmpname;
      disk := disk[name := disk[name] + put.message];
      if |list| == |infos| {
        assert Infos() == infos;
        WriteMore(infos, was, puts, put, disk0, k);
      } else {
        assert Infos() == infos + [Info(put.key, name, list[k].outname)];
        assert disk == was[name := put.header + put.message];
        WriteFirst(infos, was, puts, put, disk0, Info(put.key, name, list[k].outname));
      }
    }

    // One round of outpkt_close: reopen the entry's file if need be, end the packet with a
    // zero word, close, rename, give the entry's memory back.
    method CloseOne(i: nat, ghost disk0: map<string, seq<byte>>)
      requires Linked() && Named() && i < |list| && nopen == Count(flags)
      requires flags[i] || (maxopen >= 1 && (i == 0 || nopen < maxopen))
      requires forall j :: 0 <= j < |list| ==> list[j].freed == (j < i)
      requires Renamed(Infos(), disk0, disk, i)
      modifies this`nopen, this`flags, this`disk, list`fp, list`freed
      ensures Linked() && Named() && nopen == Count(flags) && |flags| == |old(flags)|
      ensures old(flags)[i] ==> flags == old(flags)[i := false] && nopen == old(nopen) - 1
      ensures !old(flags)[i] ==> nopen <= maxopen - 1
      ensures forall j :: 0 <= j < |list| ==> list[j].freed == (j <= i)
      ensures Renamed(Infos(), disk0, disk, i + 1)
    {
      hide FileName, Number, Count, Renamed, Distinct, Named, Linked, Alive, InfosOf;
      LinkedAt(i);
      InfosDistinct();
      StillThere(Infos(), disk0, disk, i);
      var p := list[i];
      ghost var before := disk;
      if i == 0 {
        AllAlive();
      }
      Revive(p, i);
      EndPacket(p);
      GiveBack(p, i);
      RenameNext(Infos(), disk0, before, disk, i);
    }

    lemma LinkedAt(i: nat)
      requires Linked() && i < |list|
      ensures |flags| == |list| && flags[i] == (list[i].fp && !list[i].freed)
      ensures forall j :: 0 <= j < |list| && j != i ==> list[j] != list[i]
    {
    }

    lemma AllAlive()
      requires forall j :: 0 <= j < |list| ==> !list[j].freed
      ensures Alive()
    {
    }

    // xfree of the entry.
    method GiveBack(p: OutPkt, ghost i: nat)
      requires Linked() && i < |list| && p == list[i] && |flags| == |list|
      modifies this`flags, p`freed
      ensures Linked() && flags == old(flags)[i := false] && p.freed
    {
      p.freed := true;
      flags := flags[i := false];
    }

    // "Reopen, if already closed".
    method Revive(p: OutPkt, ghost i: nat)
      requires Linked() && i < |list| && p == list[i] && !p.freed && p.tmpname in disk
      requires nopen == Count(flags) && (!p.fp ==> maxopen >= 1 && (nopen >= maxopen ==> Alive()))
      modifies this`nopen, this`flags, this`disk, list`fp
      ensures Linked() && flags[i] && disk == old(disk) && |flags| == |old(flags)|
      ensures old(flags)[i] ==> flags == old(flags) && nopen == old(nopen)
      ensures !old(flags)[i] ==> nopen <= maxopen
      ensures nopen == Count(flags) && nopen - 1 == Count(flags[i := false])
    {
      hide Count;
      if !p.fp {
        var ok, _ := Fopen(p.tmpname, true);
        SetOpen(p, i);
      }
      CountSet(flags, i, false);
    }

    // The zero word, the close and the rename.
    method EndPacket(p: OutPkt)
      requires p.tmpname in disk
      modifies this`nopen, this`disk
      ensures nopen == old(nopen) - 1
      ensures disk == (old(disk) - {p.tmpname})[p.outname := old(disk)[p.tmpname] + [0, 0]]
    {
      disk := disk[p.tmpname := disk[p.tmpname] + [0, 0]];
      nopen := nopen - 1;
      disk := (disk - {p.tmpname})[p.outname := disk[p.tmpname]];
      assert disk == (old(disk) - {p.tmpname})[p.outname := old(disk)[p.tmpname] + [0, 0]];
    }

    // Closing goes well exactly under this condition: an entry whose file had been closed is
    // reopened, and may need room for it only while no entry has been given back.
    ghost predicate ClosesWell()
      reads this`flags, this`maxopen
    {
      ClosingWell(flags, maxopen)
    }

    // outpkt_close. When it does not go well, eviction walks over entries already given back, or
    // finds nothing to close and leaves a packet unfinished: `ok` is false from there on.
    method Close() returns (ok: bool)
      requires Sound()
      modifies this`nopen, this`flags, this`disk, this`list, this`base, list`fp, list`freed
      ensures ok <==> old(ClosesWell())
      ensures ok ==> Sound() && list == [] && nopen == 0 && (maxopen >= 1 ==> Valid())
      ensures ok ==> Renamed(old(Infos()), old(disk), disk, |old(list)|)
      ensures old(Valid()) ==> ok
    {
      hide FileName, Number, Count, Renamed, Distinct, ClosingWell, InfosOf, Linked, Named, OpenSoFar, ClosedUpTo;
      NothingRenamed(Infos(), disk);
      SameSize();
      NoneClosed(flags);
      if Valid() {
        ValidClosesWell(flags, maxopen);
      }
      var i := 0;
      ghost var roomy := false;
      while i < |list|
        invariant list == old(list) && |flags| == |list| && |old(flags)| == |list| && 0 <= i <= |list|
        invariant Linked() && Named() && nopen == Count(flags)
        invariant forall j :: 0 <= j < |list| ==> list[j].freed == (j < i)
        invariant Renamed(Infos(), old(disk), disk, i)
        invariant roomy ==> old(ClosesWell()) && nopen <= maxopen - 1
        invariant !roomy ==> OpenSoFar(old(flags), i) && flags == ClosedUpTo(old(flags), i)
      {
        LinkedAt(i);
        ghost var live := flags[i];
        FlagAt(old(flags), i);
        if !list[i].fp && nopen >= maxopen && (i > 0 || maxopen < 1) {
          if !roomy {
            CannotReopen(old(flags), maxopen, i);
          }
          return false;
        }
        if !roomy && !live {
          CanReopen(old(flags), maxopen, i);
        }
        CloseOne(i, old(disk));
        if !roomy && live {
          OneMoreClosed(old(flags), i);
        }
        roomy := roomy || !live;
        i := i + 1;
      }
      if !roomy {
        AllWereOpen(old(flags), maxopen);
      }
      list, flags := [], [];
      nopen := 0;
      base := seqn;
      EmptySound();
      ok := true;
    }

    lemma EmptySound()
      requires list == [] && flags == [] && nopen == 0 && base == seqn
      ensures Sound()
    {
    }

    lemma RoomFor(puts: seq<Put>, put: Put)
      requires Filed(Infos(), disk, puts) && |Keys(puts + [put])| <= SEQUENCE
      ensures |list| < SEQUENCE || exists i :: 0 <= i < |list| && list[i].key == put.key
    {
      KeysSnoc(puts, put);
      if put.key in Keys(puts) {
        var i :| 0 <= i < |list| && Keys(puts)[i] == put.key;
        assert Infos()[i].key == list[i].key;
      }
    }

    lemma InfosAreDistinct()
      requires Valid()
      ensures Distinct(Infos())
    {
      hide FileName, Number, Count, Linked, Alive;
      InfosDistinct();
    }
  }

  // ---- closing in order ----

  ghost predicate ClosingWell(flags: seq<bool>, maxopen: int) {
    forall i :: 0 <= i < |flags| && !flags[i] ==> maxopen >= 1 && (!flags[0] || Count(flags[i..]) < maxopen)
  }

  predicate OpenSoFar(flags: seq<bool>, i: nat) {
    i <= |flags| && forall j :: 0 <= j < i ==> flags[j]
  }

  function ClosedUpTo(flags: seq<bool>, i: nat): (r: seq<bool>)
    requires i <= |flags|
    ensures |r| == |flags| && forall j :: 0 <= j < |r| ==> r[j] == (j >= i && flags[j])
  {
    seq(|flags|, j requires 0 <= j < |flags| => j >= i && flags[j])
  }

  lemma {:induction false} CountBoth(a: seq<bool>, b: seq<bool>)
    ensures Count(a + b) == Count(a) + Count(b)
  {
    if b == [] {
      assert a + b == a;
    } else {
      assert (a + b)[..|a + b| - 1] == a + b[..|b| - 1];
      CountBoth(a, b[..|b| - 1]);
    }
  }

  lemma CountClosedUpTo(flags: seq<bool>, i: nat)
    requires i <= |flags|
    ensures Count(ClosedUpTo(flags, i)) == Count(flags[i..])
  {
    hide Count;
    var r := ClosedUpTo(flags, i);
    assert r == r[..i] + flags[i..];
    CountBoth(r[..i], flags[i..]);
    NoneOpen(r[..i]);
  }

  lemma CountSuffix(flags: seq<bool>, i: nat, j: nat)
    requires i <= j <= |flags|
    ensures Count(flags[j..]) <= Count(flags[i..])
  {
    hide Count;
    assert flags[i..] == flags[i..j] + flags[j..];
    CountBoth(flags[i..j], flags[j..]);
  }

  lemma NoneClosed(flags: seq<bool>)
    ensures OpenSoFar(flags, 0) && ClosedUpTo(flags, 0) == flags
  {
  }

  lemma FlagAt(flags: seq<bool>, i: nat)
    requires i < |flags|
    ensures ClosedUpTo(flags, i)[i] == flags[i]
  {
  }

  lemma OneMoreClosed(flags: seq<bool>, i: nat)
    requires i < |flags| && OpenSoFar(flags, i) && flags[i]
    ensures OpenSoFar(flags, i + 1) && ClosedUpTo(flags, i)[i := false] == ClosedUpTo(flags, i + 1)
  {
  }

  // The first entry found closed decides.
  lemma CannotReopen(flags: seq<bool>, maxopen: int, i: nat)
    requires i < |flags| && OpenSoFar(flags, i) && !flags[i] && (i > 0 || maxopen < 1)
    requires Count(ClosedUpTo(flags, i)) >= maxopen
    ensures !ClosingWell(flags, maxopen)
  {
    CountClosedUpTo(flags, i);
  }

  lemma CanReopen(flags: seq<bool>, maxopen: int, i: nat)
    requires i < |flags| && OpenSoFar(flags, i) && !flags[i]
    requires maxopen >= 1 && (i == 0 || Count(ClosedUpTo(flags, i)) < maxopen)
    ensures ClosingWell(flags, maxopen)
  {
    hide Count;
    CountClosedUpTo(flags, i);
    forall j | 0 <= j < |flags| && !flags[j]
      ensures !flags[0] || Count(flags[j..]) < maxopen
    {
      if j >= i {
        CountSuffix(flags, i, j);
      }
    }
  }

  lemma AllWereOpen(flags: seq<bool>, maxopen: int)
    requires OpenSoFar(flags, |flags|)
    ensures ClosingWell(flags, maxopen)
  {
    hide Count;
  }

  lemma ValidClosesWell(flags: seq<bool>, maxopen: int)
    requires maxopen >= 1 && Count(flags) <= maxopen
    ensures ClosingWell(flags, maxopen)
  {
    hide Count;
    forall i | 0 <= i < |flags| && !flags[i]
      ensures !flags[0] || Count(flags[i..]) < maxopen
    {
      if flags[0] {
        assert flags == flags[..i] + flags[i..];
        CountBoth(flags[..i], flags[i..]);
        CountPositive(flags[..i], 0);
      }
    }
  }

  datatype Info = Info(key: Key, tmp: string, out: string)

  ghost function InfosOf(list: seq<OutPkt>): (r: seq<Info>)
    ensures |r| == |list|
    ensures forall i :: 0 <= i < |list| ==> r[i] == Info(list[i].key, list[i].tmpname, list[i].outname)
  {
    if list == [] then [] else
      var p := list[|list| - 1];
      InfosOf(list[..|list| - 1]) + [Info(p.key, p.tmpname, p.outname)]
  }

  // No two entries share a key or a file name, temporary or final.
  ghost predicate Distinct(infos: seq<Info>) {
    && (forall i, j :: 0 <= i < |infos| && 0 <= j < |infos| ==> infos[i].tmp != infos[j].out)
    && (forall i, j :: 0 <= i < |infos| && 0 <= j < |infos| && i != j ==>
         infos[i].tmp != infos[j].tmp && infos[i].out != infos[j].out)
  }

  // An entry per key in order of first use; its file holds one header and then the key's
  // messages in write order.
  ghost predicate Filed(infos: seq<Info>, disk: map<string, seq<byte>>, puts: seq<Put>) {
    && |infos| == |Keys(puts)|
    && forall i :: 0 <= i < |infos| ==>
         infos[i].key == Keys(puts)[i] && infos[i].tmp in disk && disk[infos[i].tmp] == Packet(puts, infos[i].key)
  }

  // Every other file is as it was.
  ghost predicate Others(infos: seq<Info>, disk: map<string, seq<byte>>, disk0: map<string, seq<byte>>) {
    forall name :: (forall i :: 0 <= i < |infos| ==> name != infos[i].tmp) ==> SameFile(disk, disk0, name)
  }

  ghost predicate SameFile(disk: map<string, seq<byte>>, disk0: map<string, seq<byte>>, name: string) {
    (name in disk <==> name in disk0) && (name in disk ==> disk[name] == disk0[name])
  }

  // The first n packets have been ended and renamed; the rest are as they were.
  ghost predicate Renamed(infos: seq<Info>, disk: map<string, seq<byte>>, disk': map<string, seq<byte>>, n: nat) {
    && (forall i :: 0 <= i < |infos| ==> infos[i].tmp in disk)
    && (forall i :: 0 <= i < n && i < |infos| ==>
         infos[i].tmp !in disk' && infos[i].out in disk' && disk'[infos[i].out] == disk[infos[i].tmp] + [0, 0])
    && (forall name :: (forall i :: 0 <= i < n && i < |infos| ==> name != infos[i].tmp && name != infos[i].out) ==>
         SameFile(disk', disk, name))
  }

  lemma NothingRenamed(infos: seq<Info>, disk: map<string, seq<byte>>)
    requires forall i :: 0 <= i < |infos| ==> infos[i].tmp in disk
    ensures Renamed(infos, disk, disk, 0)
  {
  }

  lemma StillThere(infos: seq<Info>, disk: map<string, seq<byte>>, disk': map<string, seq<byte>>, n: nat)
    requires Renamed(infos, disk, disk', n) && n < |infos| && Distinct(infos)
    ensures infos[n].tmp in disk' && disk'[infos[n].tmp] == disk[infos[n].tmp]
  {
    assert SameFile(disk', disk, infos[n].tmp);
  }

  lemma RenameNext(infos: seq<Info>, disk: map<string, seq<byte>>, disk': map<string, seq<byte>>,
                   disk'': map<string, seq<byte>>, n: nat)
    requires Renamed(infos, disk, disk', n) && n < |infos| && Distinct(infos) && infos[n].tmp in disk'
    requires disk'' == (disk' - {infos[n].tmp})[infos[n].out := disk'[infos[n].tmp] + [0, 0]]
    ensures Renamed(infos, disk, disk'', n + 1)
  {
    StillThere(infos, disk, disk', n);
    forall name | forall i :: 0 <= i < n + 1 && i < |infos| ==> name != infos[i].tmp && name != infos[i].out
      ensures SameFile(disk'', disk, name)
    {
      assert SameFile(disk', disk, name);
    }
  }

  lemma {:induction false} NoneOpen(flags: seq<bool>)
    requires forall i :: 0 <= i < |flags| ==> !flags[i]
    ensures Count(flags) == 0
  {
    if flags != [] {
      NoneOpen(flags[..|flags| - 1]);
    }
  }

  lemma WriteMore(infos: seq<Info>, disk: map<string, seq<byte>>, puts: seq<Put>, put: Put,
                  disk0: map<string, seq<byte>>, k: nat)
    requires Filed(infos, disk, puts) && Others(infos, disk, disk0) && Distinct(infos)
    requires k < |infos| && infos[k].key == put.key
    ensures var disk' := disk[infos[k].tmp := disk[infos[k].tmp] + put.message];
      Filed(infos, disk', puts + [put]) && Others(infos, disk', disk0)
  {
    var disk' := disk[infos[k].tmp := disk[infos[k].tmp] + put.message];
    KeysSnoc(puts, put);
    KeysDistinct(puts);
    forall i | 0 <= i < |infos|
      ensures disk'[infos[i].tmp] == Packet(puts + [put], infos[i].key)
    {
      PacketSnoc(puts, put, infos[i].key);
    }
    forall name | forall i :: 0 <= i < |infos| ==> name != infos[i].tmp
      ensures SameFile(disk', disk0, name)
    {
      assert SameFile(disk, disk0, name);
    }
  }

  lemma WriteFirst(infos: seq<Info>, disk: map<string, seq<byte>>, puts: seq<Put>, put: Put,
                   disk0: map<string, seq<byte>>, info: Info)
    requires Filed(infos, disk, puts) && Others(infos, disk, disk0) && Distinct(infos + [info])
    requires info.key == put.key && forall i :: 0 <= i < |infos| ==> infos[i].key != put.key
    ensures var disk' := disk[info.tmp := put.header + put.message];
      Filed(infos + [info], disk', puts + [put]) && Others(infos + [info], disk', disk0)
  {
    var all, disk' := infos + [info], disk[info.tmp := put.header + put.message];
    assert forall i :: 0 <= i < |infos| ==> Keys(puts)[i] == infos[i].key;
    assert put.key !in Keys(puts);
    KeysSnoc(puts, put);
    assert all[|infos|] == info;
    forall i | 0 <= i < |all|
      ensures all[i].key == Keys(puts + [put])[i] && all[i].tmp in disk'
      ensures disk'[all[i].tmp] == Packet(puts + [put], all[i].key)
    {
      PacketSnoc(puts, put, all[i].key);
      if i < |infos| {
        assert all[i] == infos[i] && all[i].tmp != all[|infos|].tmp;
      }
    }
    forall name | forall i :: 0 <= i < |all| ==> name != all[i].tmp
      ensures SameFile(disk', disk0, name)
    {
      assert forall i :: 0 <= i < |infos| ==> all[i] == infos[i];
      assert SameFile(disk, disk0, name);
    }
  }

  lemma {:induction false} KeysDistinct(puts: seq<Put>)
    ensures forall i, j :: 0 <= i < j < |Keys(puts)| ==> Keys(puts)[i] != Keys(puts)[j]
  {
    if puts != [] {
      KeysDistinct(puts[..|puts| - 1]);
    }
  }

  lemma KeysSnoc(puts: seq<Put>, put: Put)
    ensures Keys(puts + [put]) == if put.key in Keys(puts) then Keys(puts) else Keys(puts) + [put.key]
  {
    assert (puts + [put])[..|puts|] == puts;
  }

  lemma PacketSnoc(puts: seq<Put>, put: Put, key: Key)
    ensures Packet(puts + [put], key) ==
            if put.key != key then Packet(puts, key)
            else if key in Keys(puts) then Packet(puts, key) + put.message
            else put.header + put.message
  {
    assert (puts + [put])[..|puts|] == puts;
  }

  lemma NamesOf(dirs: Dirs, k: Key, k': Key, base: nat, i: nat, j: nat)
    requires i < SEQUENCE && j < SEQUENCE
    ensures FileName(dirs, k, Number(base, i), "tmp") != FileName(dirs, k', Number(base, j), "pkt")
    ensures i != j ==> FileName(dirs, k, Number(base, i), "tmp") != FileName(dirs, k', Number(base, j), "tmp")
    ensures i != j ==> FileName(dirs, k, Number(base, i), "pkt") != FileName(dirs, k', Number(base, j), "pkt")
  {
    hide FileName, Number;
    var m, n := Number(base, i), Number(base, j);
    assert "tmp"[0] != "pkt"[0];
    if FileName(dirs, k, m, "tmp") == FileName(dirs, k', n, "pkt") {
      FileNameInjective(dirs, k, m, "tmp", k', n, "pkt");
    }
    if FileName(dirs, k, m, "tmp") == FileName(dirs, k', n, "tmp") {
      FileNameInjective(dirs, k, m, "tmp", k', n, "tmp");
      NumberInjective(base, i, j);
    }
    if FileName(dirs, k, m, "pkt") == FileName(dirs, k', n, "pkt") {
      FileNameInjective(dirs, k, m, "pkt", k', n, "pkt");
      NumberInjective(base, i, j);
    }
  }

  lemma {:induction false} CountBounds(flags: seq<bool>)
    ensures 0 <= Count(flags) <= |flags|
  {
    if flags != [] {
      CountBounds(flags[..|flags| - 1]);
    }
  }

  // What the directories must look like at the end: a finished packet per key, under the
  // name its place in the order of first use gives it; no temporary file; nothing else
  // touched.
  ghost predicate Delivered(dirs: Dirs, seqn: nat, puts: seq<Put>, disk: map<string, seq<byte>>,
                            disk': map<string, seq<byte>>) {
    var ks := Keys(puts);
    && (forall i :: 0 <= i < |ks| ==>
         && FileName(dirs, ks[i], Number(seqn, i), "tmp") !in disk'
         && FileName(dirs, ks[i], Number(seqn, i), "pkt") in disk'
         && disk'[FileName(dirs, ks[i], Number(seqn, i), "pkt")] == Packet(puts, ks[i]) + [0, 0]
         && IsName(dirs, ks[i], (seqn + 1 + i) % 0x10_0000, "pkt", FileName(dirs, ks[i], Number(seqn, i), "pkt")))
    && (forall name ::
         (forall i :: 0 <= i < |ks| ==> name != FileName(dirs, ks[i], Number(seqn, i), "tmp")
                                        && name != FileName(dirs, ks[i], Number(seqn, i), "pkt")) ==>
         SameFile(disk', disk, name))
  }

  // Any sequence of opens and writes, then outpkt_close: every key's messages end up in
  // one file of its own, however often the file was closed and reopened on the way.
  method Deliver(dirs: Dirs, maxopen: int, seqn: nat, disk: map<string, seq<byte>>, puts: seq<Put>)
    returns (disk': map<string, seq<byte>>)
    requires maxopen >= 1 && |Keys(puts)| <= SEQUENCE
    ensures Delivered(dirs, seqn, puts, disk, disk')
  {
    hide FileName, Number, Count, Filed, Others, Distinct, Renamed, Delivered;
    var pool := new Pool(dirs, maxopen, seqn, disk);
    NothingFiled(disk);
    var i := 0;
    while i < |puts|
      invariant 0 <= i <= |puts| && pool.Valid() && fresh(pool) && pool.base == seqn && pool.dirs == dirs
      invariant forall k :: 0 <= k < |pool.list| ==> fresh(pool.list[k])
      invariant Filed(pool.Infos(), pool.disk, puts[..i]) && Others(pool.Infos(), pool.disk, disk)
    {
      assert puts[..i + 1] == puts[..i] + [puts[i]];
      KeysGrow(puts, i + 1);
      pool.Write(puts[i], puts[..i], disk);
      i := i + 1;
    }
    assert puts[..i] == puts;
    ghost var infos, written := pool.Infos(), pool.disk;
    assert InfosNamed(infos, dirs, seqn);
    var ok := pool.Close();
    DeliveredAtLast(dirs, seqn, puts, disk, infos, written, pool.disk);
    disk' := pool.disk;
  }

  // A limit lowered from two to one after three packets: the second is closed, the first and
  // the third are open. Closing the pool ends the first packet and then has no room for the
  // second.
  method LoweredLimit(dirs: Dirs, seqn: nat, disk: map<string, seq<byte>>, k0: Key, k1: Key, k2: Key, header: seq<byte>)
    returns (ok: bool)
    requires k0 != k1 && k0 != k2 && k1 != k2
    ensures !ok
  {
    hide FileName, Number, Renamed, Distinct, ClosingWell, InfosOf, Pool.Linked, Pool.Named, Pool.Alive, Count, Least;
    var pool := new Pool(dirs, 2, seqn, disk);
    CountThree();
    pool.SameSize();
    var _ := pool.Create(k0, header);
    assert pool.flags == [true];
    var _ := pool.Create(k1, header);
    pool.SameSize();
    assert pool.flags == [true, true];
    LastOfEquals(pool.list);
    ghost var which := pool.Create(k2, header);
    assert which == 1;
    assert pool.flags == [true, false, true];
    pool.SetMaxOpen(1);
    NoRoomForSecond();
    ok := pool.Close();
  }

  lemma LastOfEquals(list: seq<OutPkt>)
    requires |list| == 2 && list[0].n == list[1].n
    ensures forall k: nat :: Least(list, [true, true], k) ==> k == 1
  {
  }

  lemma CountThree()
    ensures Count([]) == 0 && Count([true]) == 1 && Count([true, true]) == 2
  {
    CountSnoc([], true);
    CountSnoc([true], true);
    assert [] + [true] == [true] && [true] + [true] == [true, true];
  }

  lemma NoRoomForSecond()
    ensures !ClosingWell([true, false, true], 1)
  {
    var flags := [true, false, true];
    assert flags[1..] == [false] + [true];
    CountSnoc([false], true);
  }

  ghost predicate InfosNamed(infos: seq<Info>, dirs: Dirs, base: nat) {
    forall i :: 0 <= i < |infos| ==>
      && infos[i].tmp == FileName(dirs, infos[i].key, Number(base, i), "tmp")
      && infos[i].out == FileName(dirs, infos[i].key, Number(base, i), "pkt")
  }

  lemma NothingFiled(disk: map<string, seq<byte>>)
    ensures Filed([], disk, []) && Others([], disk, disk)
  {
  }

  lemma {:induction false} KeysGrow(puts: seq<Put>, n: nat)
    requires n <= |puts|
    ensures |Keys(puts[..n])| <= |Keys(puts)|
    decreases |puts|
  {
    if n < |puts| {
      KeysGrow(puts[..|puts| - 1], n);
      assert puts[..|puts| - 1][..n] == puts[..n];
    } else {
      assert puts[..n] == puts;
    }
  }

  lemma DeliveredAtLast(dirs: Dirs, seqn: nat, puts: seq<Put>, disk: map<string, seq<byte>>, infos: seq<Info>,
                        written: map<string, seq<byte>>, disk': map<string, seq<byte>>)
    requires InfosNamed(infos, dirs, seqn) && Filed(infos, written, puts) && Others(infos, written, disk)
    requires Renamed(infos, written, disk', |infos|)
    ensures Delivered(dirs, seqn, puts, disk, disk')
  {
    hide FileName, IsName;
    var ks := Keys(puts);
    forall i | 0 <= i < |ks|
      ensures IsName(dirs, ks[i], (seqn + 1 + i) % 0x10_0000, "pkt", FileName(dirs, ks[i], Number(seqn, i), "pkt"))
    {
      FileNameIs(dirs, ks[i], Number(seqn, i), "pkt");
    }
    forall name |
      forall i :: 0 <= i < |ks| ==>
        name != FileName(dirs, ks[i], Number(seqn, i), "tmp") && name != FileName(dirs, ks[i], Number(seqn, i), "pkt")
      ensures SameFile(disk', disk, name)
    {
      assert forall i :: 0 <= i < |infos| ==> name != infos[i].tmp && name != infos[i].out;
      assert SameFile(disk', written, name) && SameFile(written, disk, name);
    }
  }
}
