/**
 The lower-case, unpadded base32 encoder of lib/acme.js (`_base32lc`; section 6 of RFC 4648).
 The accumulator is a 32-bit word that is shifted left by 8 for every byte and never masked, so
 its upper bits are lost; words are modelled by their bit pattern, an integer below 2^32.
 */
module Base32 {
  import opened Arith
  import opened Bytes

  const WORD := 0x1_0000_0000
  const ALPHABET := "abcdefghijklmnopqrstuvwxyz234567"

  type Bit = b: int | 0 <= b < 2
  type Symbol = s: int | 0 <= s < 32

  // ---------------------------------------------------------------- reference definition

  /** The number a bit string spells, most significant bit first. */
  function ValueOf(w: seq<Bit>): nat {
    if w == [] then 0 else ValueOf(w[..|w| - 1]) * 2 + w[|w| - 1]
  }

  /** The n low bits of v, most significant first. */
  function BitsOf(v: nat, n: nat): (w: seq<Bit>)
    ensures |w| == n
  {
    if n == 0 then [] else BitsOf(v / 2, n - 1) + [v % 2]
  }

  /** All bits of a byte string in order. */
  function Bits(buf: seq<Byte>): (w: seq<Bit>)
    ensures |w| == 8 * |buf|
  {
    if buf == [] then [] else Bits(buf[..|buf| - 1]) + BitsOf(buf[|buf| - 1], 8)
  }

  function Zeros(n: nat): (w: seq<Bit>)
    ensures |w| == n
  {
    seq(n, _ => 0)
  }

  /** Left-aligned 5-bit groups; the last group is filled with zero bits on the right. */
  function Groups(w: seq<Bit>): seq<Symbol> {
    if w == [] then []
    else if |w| < 5 then
      ValueBound(w + Zeros(5 - |w|));
      Powers();
      [ValueOf(w + Zeros(5 - |w|))]
    else
      ValueBound(w[..5]);
      Powers();
      [ValueOf(w[..5])] + Groups(w[5..])
  }

  function Text(symbols: seq<Symbol>): (s: string)
    ensures |s| == |symbols|
  {
    seq(|symbols|, i requires 0 <= i < |symbols| => ALPHABET[symbols[i]])
  }

  /** The alphabet of section 6 of RFC 4648 in lower case: letters for 0 to 25, digits 2 to 7 for the rest. */
  lemma SymbolExactly(symbols: seq<Symbol>, i: nat)
    requires i < |symbols|
    ensures Text(symbols)[i] == (if symbols[i] < 26 then ('a' as int + symbols[i]) as char else ('2' as int + symbols[i] - 26) as char)
  {
  }

  lemma {:induction false} ValueBound(w: seq<Bit>)
    ensures ValueOf(w) < Pow2(|w|)
  {
    if w != [] { ValueBound(w[..|w| - 1]); }
  }

  lemma Powers()
    ensures Pow2(5) == 32 && Pow2(8) == 256 && Pow2(27) == 0x800_0000 && Pow2(32) == WORD
  {
    assert Pow2(3) == 8 && Pow2(5) == 32 && Pow2(8) == 256;
    Pow2Add(8, 8);
    Pow2Add(8, 16);
    Pow2Add(3, 24);
    Pow2Add(5, 27);
  }

  // ---------------------------------------------------------------- the encoder

  /** Splitting a bit string splits its value. */
  lemma {:induction false} ValueSplit(a: seq<Bit>, b: seq<Bit>)
    ensures ValueOf(a + b) == ValueOf(a) * Pow2(|b|) + ValueOf(b)
    decreases |b|
  {
    if b == [] {
      assert a + b == a;
    } else {
      var p := b[..|b| - 1];
      assert (a + b)[..|a + b| - 1] == a + p;
      ValueSplit(a, p);
      DoubleProduct(ValueOf(a), Pow2(|p|));
    }
  }

  lemma DoubleProduct(x: nat, y: nat)
    ensures x * (2 * y) == (x * y) * 2
  {
  }

  lemma {:induction false} BitsOfValue(v: nat, n: nat)
    ensures ValueOf(BitsOf(v, n)) == v % Pow2(n)
    decreases n
  {
    if n != 0 {
      BitsOfValue(v / 2, n - 1);
      var w := BitsOf(v, n);
      assert w[..|w| - 1] == BitsOf(v / 2, n - 1);
      HalveMod(v, Pow2(n - 1));
    }
  }

  lemma HalveMod(v: nat, p: nat)
    requires p > 0
    ensures (v / 2) % p * 2 + v % 2 == v % (2 * p)
  {
    var h := v / 2;
    DivModUnique(v, 2 * p, h / p, h % p * 2 + v % 2) by {
      assert h == (h / p) * p + h % p;
      assert (h / p) * (2 * p) == 2 * ((h / p) * p);
    }
  }

  /** A word keeps its residue for every modulus that divides 2^32. */
  lemma WrapKeepsResidue(x: nat, m: nat, k: nat)
    requires m > 0 && k * m == WORD
    ensures (x % WORD) % m == x % m
  {
    var q, r := x / WORD, x % WORD;
    assert q * WORD == (q * k) * m;
    MulDistrib(q * k, r / m, m);
    DivModUnique(x, m, q * k + r / m, r % m);
  }

  lemma ScaleResidue(x: nat, n: nat, c: nat, b: nat)
    requires n > 0 && b < c
    ensures n * c > 0 && (x * c + b) % (n * c) == (x % n) * c + b
  {
    var q, r := x / n, x % n;
    assert n * c > 0;
    MulMono(r + 1, n, c);
    MulDistrib(r, 1, c);
    assert x * c == q * (n * c) + r * c by { assert x == q * n + r; MulDistrib(q * n, r, c); assert (q * n) * c == q * (n * c); }
    DivModUnique(x * c + b, n * c, q, r * c + b);
  }

  /** One byte shifted into the word: the low bits are exact although the upper ones are lost. */
  lemma ShiftIn(value: nat, byte: Byte, bits: nat)
    requires bits < 5
    ensures ((value * 256) % WORD + byte) % Pow2(bits + 8) == (value % Pow2(bits)) * 256 + byte
  {
    var n, m := Pow2(bits), Pow2(bits + 8);
    Powers();
    Pow2Add(bits, 8);
    Pow2Add(24 - bits, bits + 8);
    var x := value * 256;
    WrapKeepsResidue(x, m, Pow2(24 - bits));
    ScaleResidue(value, n, 256, 0);
    assert x % m == (value % n) * 256;
    AddLow(x % WORD, m, (value % n) * 256, byte) by { MulMono(value % n + 1, n, 256); }
  }

  lemma AddLow(y: nat, m: nat, r: nat, b: nat)
    requires m > 0 && y % m == r && r + b < m
    ensures (y + b) % m == r + b
  {
    DivModUnique(y + b, m, y / m, r + b);
  }

  lemma TakeHigh(value: nat, p: nat, hi: nat, lo: nat)
    requires p > 0 && hi < 32 && lo < p && value % (32 * p) == hi * p + lo
    ensures (value / p) % 32 == hi && value % p == lo
  {
    var q := value / (32 * p);
    assert value == q * (32 * p) + (hi * p + lo);
    assert q * (32 * p) == (q * 32) * p;
    MulDistrib(q * 32, hi, p);
    DivModUnique(value, p, q * 32 + hi, lo);
    DivModUnique(q * 32 + hi, 32, q, hi);
  }

  /** The top five of the pending bits, and what is left pending. */
  lemma TakeFive(value: nat, w: seq<Bit>)
    requires |w| >= 5 && value % Pow2(|w|) == ValueOf(w)
    ensures (value / Pow2(|w| - 5)) % 32 == ValueOf(w[..5])
    ensures value % Pow2(|w| - 5) == ValueOf(w[5..])
  {
    hide ValueOf;
    assert w == w[..5] + w[5..];
    ValueSplit(w[..5], w[5..]);
    ValueBound(w[..5]);
    ValueBound(w[5..]);
    Powers();
    Pow2Add(5, |w| - 5);
    TakeHigh(value, Pow2(|w| - 5), ValueOf(w[..5]), ValueOf(w[5..]));
  }

  /** The pending bits of the last, incomplete group. */
  lemma TakeRest(value: nat, w: seq<Bit>)
    requires 0 < |w| < 5 && value % Pow2(|w|) == ValueOf(w)
    ensures ((value * Pow2(5 - |w|)) % WORD) % 32 == ValueOf(w + Zeros(5 - |w|))
  {
    hide ValueOf;
    var n, c := Pow2(|w|), Pow2(5 - |w|);
    ValueSplit(w, Zeros(5 - |w|));
    ZerosValue(5 - |w|);
    Powers();
    Pow2Add(|w|, 5 - |w|);
    Pow2Add(27, 5);
    WrapKeepsResidue(value * c, 32, Pow2(27));
    ScaleResidue(value, n, c, 0);
  }

  lemma {:induction false} ZerosValue(n: nat)
    ensures ValueOf(Zeros(n)) == 0
  {
    if n != 0 {
      assert Zeros(n)[..n - 1] == Zeros(n - 1);
      ZerosValue(n - 1);
    }
  }

  lemma NothingGrouped()
    ensures Groups([]) == []
  {
  }

  /** The first group, then the rest. */
  lemma GroupsStep(w: seq<Bit>)
    requires |w| >= 5
    ensures Groups(w) == Groups(w[..5]) + Groups(w[5..])
  {
    hide ValueOf;
    assert w[..5][..5] == w[..5] && w[..5][5..] == [];
  }

  /** Appending whole groups at the front. */
  lemma {:induction false} GroupsSplit(a: seq<Bit>, b: seq<Bit>)
    requires |a| % 5 == 0
    ensures Groups(a + b) == Groups(a) + Groups(b)
    decreases |a|
  {
    hide Groups;
    if a == [] {
      assert a + b == b;
      assert Groups([]) == [] by { NothingGrouped(); }
    } else {
      assert (a + b)[..5] == a[..5] && (a + b)[5..] == a[5..] + b;
      GroupsSplit(a[5..], b);
      GroupsStep(a);
      GroupsStep(a + b);
      assert Groups(a) + Groups(b) == Groups(a[..5]) + (Groups(a[5..]) + Groups(b));
    }
  }

  lemma TextAppend(a: seq<Symbol>, b: seq<Symbol>)
    ensures Text(a + b) == Text(a) + Text(b)
  {
  }

  /** The pending bits after one more byte. */
  lemma PendingGrows(value: nat, w: seq<Bit>, byte: Byte)
    requires |w| < 5 && value % Pow2(|w|) == ValueOf(w)
    ensures ((value * 256) % WORD + byte) % Pow2(|w| + 8) == ValueOf(w + BitsOf(byte, 8))
  {
    hide ValueOf, BitsOf;
    ShiftIn(value, byte, |w|);
    ValueSplit(w, BitsOf(byte, 8));
    BitsOfValue(byte, 8);
    Powers();
  }

  lemma BitsStep(buf: seq<Byte>, i: nat)
    requires i < |buf|
    ensures Bits(buf[..i + 1]) == Bits(buf[..i]) + BitsOf(buf[i], 8)
  {
    hide BitsOf;
    assert buf[..i + 1][..i] == buf[..i];
  }

  /** The inner loop: emit whole groups from the top of the pending bits. `done` are the bits emitted
      so far, `w` the bits pending in the word. */
  method EmitGroups(value: nat, bits0: nat, out0: string, ghost done0: seq<Bit>, ghost w0: seq<Bit>)
    returns (out: string, bits: nat, ghost done: seq<Bit>, ghost w: seq<Bit>)
    requires bits0 == |w0| && value % Pow2(|w0|) == ValueOf(w0)
    requires |done0| % 5 == 0 && out0 == Text(Groups(done0))
    ensures done + w == done0 + w0 && |done| % 5 == 0
    ensures bits == |w| < 5 && value % Pow2(|w|) == ValueOf(w)
    ensures out == Text(Groups(done))
  {
    hide ValueOf, BitsOf, Groups, Text, Pow2;
    out, bits, done, w := out0, bits0, done0, w0;
    while bits >= 5
      invariant done + w == done0 + w0 && |done| % 5 == 0
      invariant bits == |w| && value % Pow2(|w|) == ValueOf(w)
      invariant out == Text(Groups(done))
    {
      TakeFive(value, w);
      out := out + [ALPHABET[(value / Pow2(bits - 5)) % 32]];
      EmitGroup(done, w[..5]);
      assert done + w[..5] + w[5..] == done + w;
      done, w := done + w[..5], w[5..];
      bits := bits - 5;
    }
  }

  /** `_base32lc` emits the left-aligned 5-bit groups of its input. */
  method Base32lc(buf: seq<Byte>) returns (out: string)
    ensures out == Text(Groups(Bits(buf)))
  {
    hide ValueOf, BitsOf, Groups, Text, Bits, Pow2;
    out := "";
    var bits := 0;
    var value: nat := 0;
    ghost var done: seq<Bit> := [];
    ghost var w: seq<Bit> := [];
    NothingEncoded();
    assert buf[..0] == [];
    for i := 0 to |buf|
      invariant done + w == Bits(buf[..i]) && |done| % 5 == 0
      invariant bits == |w| < 5 && value % Pow2(|w|) == ValueOf(w)
      invariant out == Text(Groups(done))
    {
      PendingGrows(value, w, buf[i]);
      BitsStep(buf, i);
      assert done + (w + BitsOf(buf[i], 8)) == done + w + BitsOf(buf[i], 8);
      value := (value * 256) % WORD + buf[i];
      bits := bits + 8;
      out, bits, done, w := EmitGroups(value, bits, out, done, w + BitsOf(buf[i], 8));
    }
    assert buf[..|buf|] == buf;
    GroupsSplit(done, w);
    TextAppend(Groups(done), Groups(w));
    if bits > 0 {
      TakeRest(value, w);
      LastSymbol(w);
      out := out + [ALPHABET[((value * Pow2(5 - bits)) % WORD) % 32]];
    } else {
      assert w == [];
      assert Text(Groups(done)) + "" == Text(Groups(done));
    }
  }

  lemma NothingEncoded()
    ensures Groups([]) == [] && Text([]) == "" && Bits([]) == []
    ensures ValueOf([]) == 0 && Pow2(0) == 1
  {
  }

  lemma LastSymbol(w: seq<Bit>)
    requires 0 < |w| < 5
    ensures ValueOf(w + Zeros(5 - |w|)) < 32
    ensures Text(Groups(w)) == [ALPHABET[ValueOf(w + Zeros(5 - |w|))]]
  {
    hide ValueOf;
    ValueBound(w + Zeros(5 - |w|));
    Powers();
  }

  lemma EmitGroup(done: seq<Bit>, five: seq<Bit>)
    requires |done| % 5 == 0 && |five| == 5
    ensures ValueOf(five) < 32
    ensures Text(Groups(done + five)) == Text(Groups(done)) + [ALPHABET[ValueOf(five)]]
  {
    ValueBound(five);
    Powers();
    GroupsSplit(done, five);
    assert five[..5] == five && five[5..] == [];
    assert Groups(five) == [ValueOf(five)];
  }

  // ---------------------------------------------------------------- length and round trip

  /** ceil(8n / 5) symbols. */
  lemma {:induction false} GroupsLength(w: seq<Bit>)
    ensures |Groups(w)| == (|w| + 4) / 5
    decreases |w|
  {
    if |w| >= 5 { GroupsLength(w[5..]); }
  }

  function SymbolBits(symbols: seq<Symbol>): seq<Bit> {
    if symbols == [] then [] else BitsOf(symbols[0], 5) + SymbolBits(symbols[1..])
  }

  lemma {:induction false} BitsOfValueBack(w: seq<Bit>)
    ensures BitsOf(ValueOf(w), |w|) == w
  {
    if w != [] {
      BitsOfValueBack(w[..|w| - 1]);
      assert w == w[..|w| - 1] + [w[|w| - 1]];
    }
  }

  lemma FirstGroup(w: seq<Bit>)
    requires |w| >= 5
    ensures SymbolBits(Groups(w)) == w[..5] + SymbolBits(Groups(w[5..]))
  {
    hide ValueOf, BitsOf;
    BitsOfValueBack(w[..5]);
    assert Groups(w)[0] == ValueOf(w[..5]) && Groups(w)[1..] == Groups(w[5..]);
  }

  lemma LastGroup(w: seq<Bit>)
    requires 0 < |w| < 5
    ensures SymbolBits(Groups(w)) == w + Zeros(5 - |w|)
  {
    hide ValueOf, BitsOf;
    var padded := w + Zeros(5 - |w|);
    BitsOfValueBack(padded);
    assert Groups(w)[0] == ValueOf(padded) && Groups(w)[1..] == [];
  }

  /** The groups spell the input's bits followed by fewer than five zero bits. */
  lemma {:induction false} GroupsSpell(w: seq<Bit>)
    ensures SymbolBits(Groups(w)) == w + Zeros((5 - |w| % 5) % 5)
    decreases |w|
  {
    hide Groups, SymbolBits;
    if w == [] {
      NoGroups();
    } else if |w| < 5 {
      LastGroup(w);
    } else {
      FirstGroup(w);
      GroupsSpell(w[5..]);
      assert w == w[..5] + w[5..];
      assert |w[5..]| % 5 == |w| % 5;
      assert w[..5] + (w[5..] + Zeros((5 - |w| % 5) % 5)) == w + Zeros((5 - |w| % 5) % 5);
    }
  }

  lemma NoGroups()
    ensures SymbolBits(Groups([])) == []
  {
  }

  /** Whole bytes of a bit string; an incomplete last byte is dropped. */
  function Pack(w: seq<Bit>): seq<Byte>
    decreases |w|
  {
    if |w| < 8 then []
    else
      ValueBound(w[..8]);
      Powers();
      [ValueOf(w[..8])] + Pack(w[8..])
  }

  function SymbolOf(c: char): Symbol
    requires c in ALPHABET
  {
    if 'a' <= c <= 'z' then c as int - 'a' as int else c as int - '2' as int + 26
  }

  /** The decoder of section 6 of RFC 4648 for unpadded lower-case text. */
  function Decode(s: string): seq<Byte>
    requires forall i :: 0 <= i < |s| ==> s[i] in ALPHABET
  {
    Pack(SymbolBits(seq(|s|, i requires 0 <= i < |s| => SymbolOf(s[i]))))
  }

  lemma AlphabetInverse(v: Symbol)
    ensures ALPHABET[v] in ALPHABET && SymbolOf(ALPHABET[v]) == v
  {
    SymbolExactly([v], 0);
    assert Text([v])[0] == ALPHABET[v];
    hide Text;
  }

  lemma TextInverse(symbols: seq<Symbol>)
    ensures forall i :: 0 <= i < |symbols| ==> Text(symbols)[i] in ALPHABET
    ensures Decode(Text(symbols)) == Pack(SymbolBits(symbols))
  {
    hide SymbolOf, Pack, SymbolBits;
    var s := Text(symbols);
    forall i | 0 <= i < |s|
      ensures s[i] in ALPHABET && SymbolOf(s[i]) == symbols[i]
    {
      AlphabetInverse(symbols[i]);
    }
    hide Text;
    assert seq(|s|, i requires 0 <= i < |s| => SymbolOf(s[i])) == symbols;
  }

  lemma BitsFirst(b: Byte, rest: seq<Byte>)
    ensures Bits([b] + rest) == BitsOf(b, 8) + Bits(rest)
    decreases |rest|
  {
    var s := [b] + rest;
    if rest == [] {
      assert s[..0] == [];
      assert s == [b];
    } else {
      assert s[..|s| - 1] == [b] + rest[..|rest| - 1];
      BitsFirst(b, rest[..|rest| - 1]);
    }
  }

  lemma {:induction false} PackInverse(buf: seq<Byte>, tail: seq<Bit>)
    requires |tail| < 8
    ensures Pack(Bits(buf) + tail) == buf
    decreases |buf|
  {
    hide ValueOf, BitsOf;
    if buf == [] {
      assert Bits(buf) + tail == tail;
    } else {
      var w := Bits(buf) + tail;
      assert buf == [buf[0]] + buf[1..];
      BitsFirst(buf[0], buf[1..]);
      assert w[..8] == BitsOf(buf[0], 8) && w[8..] == Bits(buf[1..]) + tail;
      BitsOfValue(buf[0], 8);
      Powers();
      PackInverse(buf[1..], tail);
    }
  }

  /** The encoding has ceil(8n / 5) symbols and decodes to the input, for every byte string. */
  lemma EncodeDecode(buf: seq<Byte>)
    ensures var s := Text(Groups(Bits(buf)));
            && |s| == (8 * |buf| + 4) / 5
            && (forall i :: 0 <= i < |s| ==> s[i] in ALPHABET)
            && Decode(s) == buf
  {
    var w := Bits(buf);
    GroupsLength(w);
    GroupsSpell(w);
    TextInverse(Groups(w));
    PackInverse(buf, Zeros((5 - |w| % 5) % 5));
  }
}
