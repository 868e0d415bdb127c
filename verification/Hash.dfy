// The 31-bit hash of dbz: a shift-and-xor over a table that crcinit builds.
module Hash {

  // The polynomial crcinit shifts right, once per set bit of the table index.
  const POLY: bv31 := 0x4800_0000

  // Table entry `index`, summed over its low `bits` bits (crcinit runs bits = 7).
  function TableEntry(index: bv31, bits: nat): bv31
    requires bits <= 7
  {
    if bits == 0 then 0 else
    var rest := TableEntry(index, bits - 1);
    if (index >> (bits - 1)) & 1 == 1 then rest ^ (POLY >> (bits - 1)) else rest
  }

  // What each of the seven low bits of an index brings.
  function Bits(i: bv31): bv31 {
    (if i & 1 != 0 then 0x4800_0000 as bv31 else 0) ^ (if i & 2 != 0 then 0x2400_0000 as bv31 else 0)
    ^ (if i & 4 != 0 then 0x1200_0000 as bv31 else 0) ^ (if i & 8 != 0 then 0x0900_0000 as bv31 else 0)
    ^ (if i & 16 != 0 then 0x0480_0000 as bv31 else 0) ^ (if i & 32 != 0 then 0x0240_0000 as bv31 else 0)
    ^ (if i & 64 != 0 then 0x0120_0000 as bv31 else 0)
  }

  lemma EntryBits(i: bv31)
    ensures TableEntry(i, 7) == Bits(i)
  {
    var e := (n: nat) requires n <= 7 => TableEntry(i, n);
    assert e(0) == 0;
    assert e(1) == if (i >> 0) & 1 == 1 then e(0) ^ (POLY >> 0) else e(0);
    assert e(2) == if (i >> 1) & 1 == 1 then e(1) ^ (POLY >> 1) else e(1);
    assert e(3) == if (i >> 2) & 1 == 1 then e(2) ^ (POLY >> 2) else e(2);
    assert e(4) == if (i >> 3) & 1 == 1 then e(3) ^ (POLY >> 3) else e(3);
    assert e(5) == if (i >> 4) & 1 == 1 then e(4) ^ (POLY >> 4) else e(4);
    assert e(6) == if (i >> 5) & 1 == 1 then e(5) ^ (POLY >> 5) else e(5);
    assert e(7) == if (i >> 6) & 1 == 1 then e(6) ^ (POLY >> 6) else e(6);
  }

  // One round: only the low seven bits of a character reach the sum.
  function Round(sum: bv31, c: char): bv31 {
    (sum >> 7) ^ TableEntry((sum ^ ((c as int % 128) as bv31)) & 0x7f, 7)
  }

  function Fold(name: string): bv31 {
    if name == "" then 0 else Round(Fold(name[..|name| - 1]), name[|name| - 1])
  }

  function Of(name: string): (h: int)
    ensures 0 <= h < 0x8000_0000
  {
    Fold(name) as int
  }

  lemma RoundBits(sum: bv31, c: char, low: bv31)
    requires low == (sum ^ ((c as int % 128) as bv31)) & 127
    ensures Round(sum, c) == (sum >> 7) ^ Bits(low)
  {
    hide TableEntry, Bits;
    EntryBits(low);
  }

  // The hash of one key.
  // The high bit of a character does not count.
  lemma HighBitIgnored(sum: bv31, c: char)
    requires 128 <= c as int < 256
    ensures Round(sum, c) == Round(sum, (c as int - 128) as char)
  {
    hide TableEntry;
    assert c as int % 128 == (c as int - 128) % 128;
  }

  lemma SixRounds()
    ensures Round(0, '<') == 0x1DC0_0000 && Round(0x1DC0_0000, 'A') == 0x491B_8000
    ensures Round(0x491B_8000, '@') == 0x01B2_3700 && Round(0x01B2_3700, 'b') == 0x2763_646E
    ensures Round(0x2763_646E, '>') == 0x05EE_C6C8 && Round(0x05EE_C6C8, '\0') == 0x082B_DD8D
  {
    hide Round;
    RoundBits(0, '<', 60);
    RoundBits(0x1DC0_0000, 'A', 65);
    RoundBits(0x491B_8000, '@', 64);
    RoundBits(0x01B2_3700, 'b', 98);
    RoundBits(0x2763_646E, '>', 80);
    RoundBits(0x05EE_C6C8, '\0', 72);
  }

  lemma HashOfOne()
    ensures Of("<A@b>\0") == 137092493
  {
    hide Round, Fold;
    SixRounds();
    var s := "<A@b>\0";
    assert Fold(s[..0]) == 0 by { NothingFolded(s[..0]); }
    FoldOn(s, 0);
    FoldOn(s, 1);
    FoldOn(s, 2);
    FoldOn(s, 3);
    FoldOn(s, 4);
    FoldOn(s, 5);
    assert s[..6] == s;
  }

  lemma NothingFolded(s: string)
    requires s == ""
    ensures Fold(s) == 0
  {
  }

  lemma FoldOn(s: string, i: nat)
    requires i < |s|
    ensures Fold(s[..i + 1]) == Round(Fold(s[..i]), s[i])
  {
    hide Round;
    assert s[..i + 1][..i] == s[..i];
  }

  method Compute(name: string) returns (h: int)
    ensures h == Of(name)
  {
    var sum: bv31 := 0;
    var i := 0;
    while i < |name|
      invariant 0 <= i <= |name|
      invariant sum == Fold(name[..i])
    {
      assert name[..i + 1][..i] == name[..i];
      sum := Round(sum, name[i]);
      i := i + 1;
    }
    assert name[..i] == name;
    h := sum as int;
  }
}
