// The base64 codec of mime.c: quanta of three bytes and four letters.
module Base64 {
  import opened Common

  const PAD: byte := '=' as int

  // mime_inttob64: only the low six bits count.
  function ToLetter(a: nat): (c: byte)
  {
    var v := a % 64;
    if v <= 0x19 then v + 'A' as int
    else if v <= 0x33 then v - 0x1a + 'a' as int
    else if v <= 0x3d then v - 0x34 + '0' as int
    else if v == 0x3e then '+' as int
    else '/' as int
  }

  // mime_b64toint: -1 is ERROR and 0x40 is the padding sign.
  function FromLetter(c: byte): (v: int)
    ensures -1 <= v <= 0x40
  {
    if 'A' as int <= c <= 'Z' as int then c - 'A' as int
    else if 'a' as int <= c <= 'z' as int then 0x1a + c - 'a' as int
    else if '0' as int <= c <= '9' as int then 0x34 + c - '0' as int
    else if c == '+' as int then 0x3e
    else if c == '/' as int then 0x3f
    else if c == PAD then 0x40
    else -1
  }

  lemma LetterRoundTrip(a: nat)
    ensures FromLetter(ToLetter(a)) == a % 64
    ensures ToLetter(a) != PAD && ToLetter(a) > 32
  {
  }

  // ---- one quantum ----

  // The four letters of up to three bytes.
  function Quantum(src: seq<byte>): (q: seq<byte>)
    requires 1 <= |src| <= 3
    ensures |q| == 4
  {
    var b0: int := src[0];
    var b1: int := if |src| > 1 then src[1] else 0;
    var b2: int := if |src| > 2 then src[2] else 0;
    [ToLetter(b0 / 4), ToLetter(b0 * 16 + b1 / 16),
     if |src| > 1 then ToLetter(b1 * 4 + b2 / 64) else PAD,
     if |src| > 2 then ToLetter(b2) else PAD]
  }

  // The alphabet of RFC 2045, section 6.8.
  function Symbol(v: nat): byte
    requires v < 64
  {
    (if v < 26 then "ABCDEFGHIJKLMNOPQRSTUVWXYZ"[v]
     else if v < 52 then "abcdefghijklmnopqrstuvwxyz"[v - 26]
     else "0123456789+/"[v - 52]) as int
  }

  lemma LetterIsSymbol(a: nat)
    ensures ToLetter(a) == Symbol(a % 64)
  {
    var v := a % 64;
    if v < 26 {
      Alphabet(v);
    } else if v < 52 {
      Alphabet(v - 26);
    }
  }

  // The bytes of a quantum as one number of 24 bits are its letters as digits to the base 64;
  // a padding sign stands for each byte missing.
  lemma QuantumDigits(src: seq<byte>)
    requires 1 <= |src| <= 3
    ensures var v: int := src[0] as int * 65536 + (if |src| > 1 then src[1] as int * 256 else 0)
                          + (if |src| > 2 then src[2] as int else 0);
      Quantum(src) == [Symbol(v / 262144), Symbol(v / 4096 % 64),
                       if |src| > 1 then Symbol(v / 64 % 64) else '=' as int,
                       if |src| > 2 then Symbol(v % 64) else '=' as int]
  {
    hide Symbol, ToLetter;
    var b0: int := src[0];
    var b1: int := if |src| > 1 then src[1] else 0;
    var b2: int := if |src| > 2 then src[2] else 0;
    SixBits(b0, b1, b2);
    LetterIsSymbol(b0 / 4);
    LetterIsSymbol(b0 * 16 + b1 / 16);
    LetterIsSymbol(b1 * 4 + b2 / 64);
    LetterIsSymbol(b2);
  }

  lemma SixBits(b0: byte, b1: byte, b2: byte)
    ensures var v: int := b0 as int * 65536 + b1 as int * 256 + b2 as int;
      && v / 262144 == b0 / 4 % 64 && v / 4096 % 64 == (b0 * 16 + b1 / 16) % 64
      && v / 64 % 64 == (b1 * 4 + b2 / 64) % 64 && v % 64 == b2 % 64
  {
    var v: int := b0 as int * 65536 + b1 as int * 256 + b2 as int;
    assert v / 64 == b0 as int * 1024 + b1 as int * 4 + b2 as int / 64;
    assert v / 4096 == b0 as int * 16 + b1 as int / 16;
    assert v / 262144 == b0 as int / 4;
  }

  // The bytes of four letters, as mime_b64_decode's loop body computes them; a second
  // letter that is a padding sign sets bit 2 of the first byte, as its shift does.
  function Unquantum(q: seq<byte>): (r: Option<seq<byte>>)
    requires |q| == 4
    ensures r.Some? ==> 1 <= |r.value| <= 3
  {
    var v1, v2, v3, v4 := FromLetter(q[0]), FromLetter(q[1]), FromLetter(q[2]), FromLetter(q[3]);
    if v1 < 0 || v2 < 0 || v3 < 0 || v4 < 0 then None else
    var first := if v2 == 0x40 && v1 % 2 == 1 then v1 * 4 % 256 else (v1 * 4 + v2 / 16) % 256;
    var second := v2 % 16 * 16 + v3 / 4;
    if v3 < 0x40 then
      if v4 < 0x40 then Some([first, second, v3 % 4 * 64 + v4]) else Some([first, second])
    else if v4 < 0x40 then None
    else Some([first])
  }

  lemma QuantumRoundTrip(src: seq<byte>)
    requires 1 <= |src| <= 3
    ensures Unquantum(Quantum(src)) == Some(src)
  {
    hide ToLetter, FromLetter, Unquantum;
    var b0: int := src[0];
    var b1: int := if |src| > 1 then src[1] else 0;
    var b2: int := if |src| > 2 then src[2] else 0;
    LetterRoundTrip(b0 / 4);
    LetterRoundTrip(b0 * 16 + b1 / 16);
    LetterRoundTrip(b1 * 4 + b2 / 64);
    LetterRoundTrip(b2);
    PadIsPad();
    SextetArithmetic(b0, b1, b2);
    UnquantumIs(Quantum(src));
    assert src == if |src| == 1 then [b0] else if |src| == 2 then [b0, b1] else [b0, b1, b2];
  }

  lemma UnquantumIs(q: seq<byte>)
    requires |q| == 4
    ensures var (v1, v2, v3, v4) := (FromLetter(q[0]), FromLetter(q[1]), FromLetter(q[2]), FromLetter(q[3]));
      var first := (v1 * 4 + v2 / 16) % 256;
      var second := v2 % 16 * 16 + v3 / 4;
      0 <= v1 < 0x40 && 0 <= v2 < 0x40 && v3 >= 0 && v4 >= 0 && (v4 < 0x40 ==> v3 < 0x40) ==>
        Unquantum(q) == Some(if v3 == 0x40 then [first] else if v4 == 0x40 then [first, second] else [first, second, v3 % 4 * 64 + v4])
  {
    hide FromLetter;
  }

  lemma PadIsPad()
    ensures FromLetter(PAD) == 0x40
  {
  }

  // Cutting three bytes into four sextets and putting them together again.
  lemma SextetArithmetic(b0: byte, b1: byte, b2: byte)
    ensures var (s0, s1, s2, s3) := (b0 / 4, (b0 * 16 + b1 / 16) % 64, (b1 * 4 + b2 / 64) % 64, b2 % 64);
      && b0 / 4 % 64 == s0
      && (s0 * 4 + s1 / 16) % 256 == b0
      && s1 % 16 * 16 + s2 / 4 == b1
      && s2 % 4 * 64 + s3 == b2
  {
    var q0: int, r0: int := b0 / 4, b0 % 4;
    var q1: int, r1: int := b1 / 16, b1 % 16;
    var q2: int, r2: int := b2 / 64, b2 % 64;
    Below64(q0, r0 * 16 + q1);
    Below64(q1, r1 * 4 + q2);
    Digits(r0, q1, 16);
    Digits(r1, q2, 4);
  }

  lemma Below64(q: nat, r: nat)
    requires r < 64
    ensures (q * 64 + r) % 64 == r && r % 64 == r
  {
  }

  lemma Digits(hi: nat, lo: nat, base: nat)
    requires lo < base && (base == 16 || base == 4)
    ensures (hi * base + lo) / base == hi && (hi * base + lo) % base == lo
  {
  }

  // ---- texts ----

  // No padding anywhere.
  predicate FullQuantum(q: seq<byte>)
    requires |q| == 4
  {
    forall i :: 0 <= i < 4 ==> 0 <= FromLetter(q[i]) < 0x40
  }

  predicate Full(t: seq<byte>)
  {
    t == [] || (|t| >= 4 && FullQuantum(t[..4]) && Full(t[4..]))
  }

  // Valid base64: padding, if any, only in the last quantum.
  predicate WellPadded(t: seq<byte>) {
    t == [] || (|t| >= 4 && Unquantum(t[..4]).Some? && (if |t| == 4 then true else FullQuantum(t[..4]) && WellPadded(t[4..])))
  }

  function Decode(t: seq<byte>): Option<seq<byte>> {
    if t == [] then Some([])
    else if |t| < 4 then None
    else match Unquantum(t[..4])
      case None => None
      case Some(b) => Prepend(b, Decode(t[4..]))
  }

  // What a text stands for; nothing when it cannot be decoded.
  function Payload(t: seq<byte>): seq<byte> {
    Decode(t).GetOr([])
  }

  lemma {:induction false} WellPaddedDecodes(t: seq<byte>)
    requires WellPadded(t)
    ensures Decode(t).Some?
  {
    if |t| > 4 {
      WellPaddedDecodes(t[4..]);
    }
  }

  lemma {:induction false} FullIsWellPadded(t: seq<byte>)
    requires Full(t)
    ensures WellPadded(t)
  {
    if t != [] {
      FullIsWellPadded(t[4..]);
    }
  }

  // A quantum more at the end decodes to its bytes more at the end.
  lemma {:induction false} AppendQuantum(t: seq<byte>, src: seq<byte>)
    requires Full(t) && 1 <= |src| <= 3
    ensures WellPadded(t + Quantum(src)) && Payload(t + Quantum(src)) == Payload(t) + src
    ensures |src| == 3 ==> Full(t + Quantum(src))
    decreases |t|
  {
    hide Quantum, Unquantum;
    var q := Quantum(src);
    QuantumRoundTrip(src);
    if t == [] {
      assert t + q == q && q[..4] == q && q[4..] == [];
      assert [] + src == src && src + [] == src;
      if |src| == 3 {
        ThreeBytesFull(src);
      }
    } else {
      assert (t + q)[..4] == t[..4] && (t + q)[4..] == t[4..] + q;
      AppendQuantum(t[4..], src);
      FullIsWellPadded(t);
      WellPaddedDecodes(t);
      WellPaddedDecodes(t[4..]);
      WellPaddedDecodes(t[4..] + q);
      var b := Unquantum(t[..4]).value;
      assert b + (Payload(t[4..]) + src) == (b + Payload(t[4..])) + src;
    }
  }

  lemma ThreeBytesFull(src: seq<byte>)
    requires |src| == 3
    ensures FullQuantum(Quantum(src))
  {
    hide ToLetter, FromLetter;
    var b0: int, b1: int, b2: int := src[0], src[1], src[2];
    LetterRoundTrip(b0 / 4);
    LetterRoundTrip(b0 * 16 + b1 / 16);
    LetterRoundTrip(b1 * 4 + b2 / 64);
    LetterRoundTrip(b2);
  }

  // Letters of base64 are printable and never white space.
  lemma QuantumPrintable(src: seq<byte>)
    requires 1 <= |src| <= 3
    ensures forall i :: 0 <= i < 4 ==> Quantum(src)[i] > 32
  {
  }

  // mime_b64_encode_chunk: letters for at most three bytes, assigned one by one and
  // corrected as more bytes turn up; `used` is how many were taken.
  method EncodeChunk(src: seq<byte>) returns (dst: seq<byte>, used: nat)
    ensures used == if |src| > 3 then 3 else |src|
    ensures dst == if used == 0 then [] else Quantum(src[..used])
  {
    hide ToLetter, Quantum;
    if src == [] {
      return [], 0;
    }
    used := if |src| > 3 then 3 else |src|;
    var padding := 3 - used;
    var b0: int := src[0];
    dst := [ToLetter(b0 / 4), ToLetter(b0 * 16), 0, 0];
    if used >= 2 {
      var b1: int := src[1];
      dst := dst[1 := ToLetter(b0 * 16 + b1 / 16)];
      dst := dst[2 := ToLetter(b1 * 4)];
      if used >= 3 {
        var b2: int := src[2];
        dst := dst[2 := ToLetter(b1 * 4 + b2 / 64)];
        dst := dst[3 := ToLetter(b2)];
      }
    }
    ghost var letters := Quantum(src[..used]);
    QuantumIs(src[..used], src[0], if used > 1 then src[1] else 0, if used > 2 then src[2] else 0);
    QuantumPads(src[..used]);
    assert Same(dst, letters, used + 1);
    while padding > 0
      invariant 0 <= padding <= 3 - used && |dst| == 4 && Same(dst, letters, 4 - padding)
    {
      dst := dst[4 - padding := PAD];
      padding := padding - 1;
    }
  }

  predicate Same(a: seq<byte>, b: seq<byte>, n: nat)
    requires |a| == |b| == 4 && n <= 4
  {
    && (n > 0 ==> a[0] == b[0]) && (n > 1 ==> a[1] == b[1])
    && (n > 2 ==> a[2] == b[2]) && (n > 3 ==> a[3] == b[3])
  }

  // The letters of a quantum as the assignments compute them.
  lemma QuantumIs(src: seq<byte>, b0: int, b1: int, b2: int)
    requires 1 <= |src| <= 3 && b0 == src[0]
    requires (b1 == if |src| > 1 then src[1] else 0) && (b2 == if |src| > 2 then src[2] else 0)
    ensures b0 >= 0 && b1 >= 0 && b2 >= 0
    ensures Quantum(src)[0] == ToLetter(b0 / 4)
    ensures |src| == 1 ==> Quantum(src)[1] == ToLetter(b0 * 16)
    ensures |src| > 1 ==> Quantum(src)[1] == ToLetter(b0 * 16 + b1 / 16)
    ensures |src| == 2 ==> Quantum(src)[2] == ToLetter(b1 * 4)
    ensures |src| == 3 ==> Quantum(src)[2] == ToLetter(b1 * 4 + b2 / 64) && Quantum(src)[3] == ToLetter(b2)
  {
    hide ToLetter;
  }

  lemma QuantumPads(src: seq<byte>)
    requires 1 <= |src| <= 3
    ensures |src| < 3 ==> Quantum(src)[3] == PAD
    ensures |src| < 2 ==> Quantum(src)[2] == PAD
  {
    hide ToLetter;
  }

  // What is decoded so far, put before what the rest decodes to.
  function Prepend(done: seq<byte>, rest: Option<seq<byte>>): Option<seq<byte>> {
    match rest case None => None case Some(r) => Some(done + r)
  }

  // mime_b64_decode.
  method DecodeText(src: seq<byte>) returns (r: Option<seq<byte>>)
    ensures r == Decode(src)
  {
    hide FromLetter, Unquantum;
    if |src| % 4 != 0 {
      RaggedUndecodable(src);
      return None;
    }
    var i := 0;
    var buf: seq<byte> := [];
    assert src[0..] == src;
    PrependNothing(Decode(src));
    while i < |src|
      invariant 0 <= i <= |src| && i % 4 == 0
      invariant Decode(src) == Prepend(buf, Decode(src[i..]))
    {
      assert src[i..][..4] == src[i..i + 4] && src[i..][4..] == src[i + 4..];
      var bytes := DecodeQuantum(src[i..i + 4]);
      if bytes.None? {
        return None;
      }
      PrependMore(buf, bytes.value, Decode(src[i + 4..]));
      buf := buf + bytes.value;
      i := i + 4;
    }
    assert src[i..] == [] && buf + [] == buf;
    r := Some(buf);
  }

  lemma PrependNothing(rest: Option<seq<byte>>)
    ensures Prepend([], rest) == rest
  {
    if rest.Some? {
      assert [] + rest.value == rest.value;
    }
  }

  lemma PrependMore(done: seq<byte>, more: seq<byte>, rest: Option<seq<byte>>)
    ensures Prepend(done, Prepend(more, rest)) == Prepend(done + more, rest)
  {
    if rest.Some? {
      assert done + (more + rest.value) == (done + more) + rest.value;
    }
  }

  // The loop body: four letters to as many bytes as the padding leaves.
  method DecodeQuantum(q: seq<byte>) returns (r: Option<seq<byte>>)
    requires |q| == 4
    ensures r == Unquantum(q)
  {
    var v1, v2, v3, v4 := FromLetter(q[0]), FromLetter(q[1]), FromLetter(q[2]), FromLetter(q[3]);
    if v1 == -1 || v2 == -1 || v3 == -1 || v4 == -1 {
      return None;
    }
    var buf: seq<byte> := [if v2 == 0x40 && v1 % 2 == 1 then v1 * 4 % 256 else (v1 * 4 + v2 / 16) % 256];
    if v3 < 0x40 {
      buf := buf + [v2 % 16 * 16 + v3 / 4];
      if v4 < 0x40 {
        buf := buf + [v3 % 4 * 64 + v4];
      }
    } else if v4 < 0x40 {
      return None;
    }
    r := Some(buf);
    assert r.value == Unquantum(q).value;
  }

  lemma {:induction false} RaggedUndecodable(t: seq<byte>)
    requires |t| % 4 != 0
    ensures Decode(t) == None
  {
    if |t| > 4 {
      RaggedUndecodable(t[4..]);
    }
  }
}
