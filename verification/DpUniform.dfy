/**
 The rejection-sampled uniform integer below m (lib/ai-dp.js, `_uniformBelow`): draw whole
 bytes, keep the low bits, retry until the value is below m.
 */
module DpUniform {
  import opened Arith
  import opened Bytes

  /** Outcome of one call on a finite supply of random buffers. */
  datatype Sample =
    | Refused                          // m <= 0: the source throws
    | Drawn(value: nat, used: nat)     // value and number of buffers consumed
    | Starved                          // every buffer of the supply was rejected

  /** `m.toString(2).length` */
  function BitLength(m: int): (n: nat)
    requires m >= 1
    ensures n >= 1
  {
    if m == 1 then 1 else 1 + BitLength(m / 2)
  }

  /** `Math.ceil(bits / 8)` */
  function ByteLength(bits: nat): nat {
    (bits + 7) / 8
  }

  /** The integer the bytes spell, most significant first. */
  function BigEndian(s: seq<Byte>): nat {
    if s == [] then 0 else BigEndian(s[..|s| - 1]) * 256 + s[|s| - 1]
  }

  /** Value kept from one chunk: `x & mask` with mask = 2^bits - 1. */
  function Masked(s: seq<Byte>, bits: nat): nat {
    BigEndian(s) % Pow2(bits)
  }

  /** Number of bytes `_uniformBelow` asks for per attempt. */
  function BufferSize(m: int): nat
    requires m >= 1
  {
    ByteLength(BitLength(m))
  }

  /** A call returns the masked value of the first buffer that falls below m. */
  method UniformBelow(m: int, buffers: seq<seq<Byte>>) returns (r: Sample)
    requires m > 1 ==> forall b :: b in buffers ==> |b| == BufferSize(m)
    ensures r == Refused <==> m <= 0
    ensures m == 1 ==> r == Drawn(0, 0)
    ensures m > 1 && r.Drawn? ==>
              && 1 <= r.used <= |buffers|
              && r.value == Masked(buffers[r.used - 1], BitLength(m)) < m
              && forall j :: 0 <= j < r.used - 1 ==> Masked(buffers[j], BitLength(m)) >= m
    ensures m > 1 && r.Starved? ==> forall j :: 0 <= j < |buffers| ==> Masked(buffers[j], BitLength(m)) >= m
  {
    if m <= 0 { return Refused; }
    if m == 1 { return Drawn(0, 0); }
    var bits := BitLength(m);
    var bytes := ByteLength(bits);
    var modulus := Pow2(bits);
    var i := 0;
    while i < |buffers|
      invariant 0 <= i <= |buffers|
      invariant forall j :: 0 <= j < i ==> Masked(buffers[j], bits) >= m
    {
      var buf := buffers[i];
      assert buf in buffers;
      var x := 0;
      for k := 0 to bytes
        invariant x == BigEndian(buf[..k])
      {
        assert buf[..k + 1][..k] == buf[..k];
        x := x * 256 + buf[k];
      }
      assert buf[..bytes] == buf;
      x := x % modulus;
      if x < m {
        return Drawn(x, i + 1);
      }
      i := i + 1;
    }
    return Starved;
  }

  // ---------------------------------------------------------------- exactness

  lemma {:induction false} BitLengthBounds(m: int)
    requires m >= 1
    ensures Pow2(BitLength(m) - 1) <= m < Pow2(BitLength(m))
  {
    if m > 1 {
      BitLengthBounds(m / 2);
    }
  }

  /** All byte strings of length n. */
  ghost function Strings(n: nat): set<seq<Byte>> {
    if n == 0 then {[]} else set s, b: Byte | s in Strings(n - 1) && 0 <= b < 256 :: s + [b]
  }

  lemma {:induction false} StringsComplete(n: nat, s: seq<Byte>)
    ensures s in Strings(n) <==> |s| == n
  {
    if n != 0 {
      if |s| == n {
        StringsComplete(n - 1, s[..n - 1]);
        assert s == s[..n - 1] + [s[n - 1]];
      }
      if s in Strings(n) {
        var p, b: Byte :| p in Strings(n - 1) && 0 <= b < 256 && s == p + [b];
        StringsComplete(n - 1, p);
      }
    }
  }

  /** The byte string of length n that spells v. */
  ghost function Digits(n: nat, v: nat): seq<Byte> {
    if n == 0 then [] else Digits(n - 1, v / 256) + [v % 256]
  }

  lemma {:induction false} DigitsSpell(n: nat, v: nat)
    requires v < Pow2(8 * n)
    ensures |Digits(n, v)| == n && BigEndian(Digits(n, v)) == v
  {
    if n != 0 {
      Pow2Add(8, 8 * (n - 1));
      assert Pow2(8) == 256;
      DigitsSpell(n - 1, v / 256);
      var d := Digits(n, v);
      assert d[..|d| - 1] == Digits(n - 1, v / 256);
    }
  }

  lemma {:induction false} DigitsUnique(s: seq<Byte>)
    ensures BigEndian(s) < Pow2(8 * |s|)
    ensures Digits(|s|, BigEndian(s)) == s
  {
    if s != [] {
      var p, b := s[..|s| - 1], s[|s| - 1];
      DigitsUnique(p);
      Pow2Add(8, 8 * |p|);
      assert Pow2(8) == 256;
      DivModUnique(BigEndian(s), 256, BigEndian(p), b);
      assert s == p + [b];
    }
  }

  /** Byte strings of length n whose masked value is x. */
  ghost function Fibre(n: nat, bits: nat, x: nat): set<seq<Byte>> {
    set s | s in Strings(n) && Masked(s, bits) == x
  }

  lemma {:induction false} ImageCard<T>(k: nat, f: nat -> T)
    requires forall i: nat, j: nat :: i < j < k ==> f(i) != f(j)
    ensures |set i: nat | i < k :: f(i)| == k
  {
    var s := set i: nat | i < k :: f(i);
    if k == 0 {
      assert s == {};
    } else {
      ImageCard(k - 1, f);
      var p := set i: nat | i < k - 1 :: f(i);
      assert s == p + {f(k - 1)};
      assert f(k - 1) !in p;
    }
  }

  lemma SpreadBound(q: nat, x: nat, p: nat, k: nat)
    requires x < p && q < k
    ensures q * p + x < k * p
  {
    MulMono(q + 1, k, p);
    MulDistrib(q, 1, p);
  }

  /** The q-th byte string whose masked value is x. */
  ghost function Preimage(n: nat, p: nat, x: nat, q: nat): seq<Byte> {
    Digits(n, q * p + x)
  }

  lemma PreimageSpells(n: nat, p: nat, x: nat, k: nat, q: nat)
    requires x < p && k * p == Pow2(8 * n) && q < k
    ensures |Preimage(n, p, x, q)| == n && BigEndian(Preimage(n, p, x, q)) == q * p + x
  {
    SpreadBound(q, x, p, k);
    DigitsSpell(n, q * p + x);
  }

  lemma PreimageInjective(n: nat, p: nat, x: nat, k: nat, i: nat, j: nat)
    requires x < p && k * p == Pow2(8 * n) && i < j < k
    ensures Preimage(n, p, x, i) != Preimage(n, p, x, j)
  {
    PreimageSpells(n, p, x, k, i);
    PreimageSpells(n, p, x, k, j);
    SpreadBound(i, 0, p, j);
  }

  lemma FibreIndex(n: nat, bits: nat, x: nat, k: nat, s: seq<Byte>) returns (q: nat)
    requires k * Pow2(bits) == Pow2(8 * n) && s in Fibre(n, bits, x)
    ensures q < k && Preimage(n, Pow2(bits), x, q) == s
  {
    hide Pow2, BigEndian, Digits, Strings;
    StringsComplete(n, s);
    DigitsUnique(s);
    q := QuotientBelow(BigEndian(s), Pow2(bits), k);
  }

  lemma QuotientBelow(v: nat, p: nat, k: nat) returns (q: nat)
    requires p > 0 && v < k * p
    ensures q < k && v == q * p + v % p
  {
    q := v / p;
    DivBounds(v, p);
    if q >= k { MulMono(k, q, p); assert false; }
  }

  lemma PreimageInFibre(n: nat, bits: nat, x: nat, k: nat, q: nat)
    requires x < Pow2(bits) && k * Pow2(bits) == Pow2(8 * n) && q < k
    ensures Preimage(n, Pow2(bits), x, q) in Fibre(n, bits, x)
  {
    var p := Pow2(bits);
    PreimageSpells(n, p, x, k, q);
    StringsComplete(n, Preimage(n, p, x, q));
    DivModUnique(q * p + x, p, q, x);
  }

  /** Every value the mask can produce comes from exactly 2^(8n - bits) byte strings. */
  lemma FibreSize(n: nat, bits: nat, x: nat)
    requires bits <= 8 * n && x < Pow2(bits)
    ensures |Fibre(n, bits, x)| == Pow2(8 * n - bits)
  {
    var p, k := Pow2(bits), Pow2(8 * n - bits);
    Pow2Add(8 * n - bits, bits);
    var f := (q: nat) => Preimage(n, p, x, q);
    forall i: nat, j: nat | i < j < k
      ensures f(i) != f(j)
    {
      PreimageInjective(n, p, x, k, i, j);
    }
    ImageCard(k, f);
    var image := set q: nat | q < k :: f(q);
    forall s | s in Fibre(n, bits, x)
      ensures s in image
    {
      var q := FibreIndex(n, bits, x, k, s);
      assert s == f(q);
    }
    forall s | s in image
      ensures s in Fibre(n, bits, x)
    {
      var q: nat :| q < k && s == f(q);
      PreimageInFibre(n, bits, x, k, q);
    }
    assert Fibre(n, bits, x) == image;
  }

  /** Byte strings that end the loop for the bound m. */
  ghost function Accepted(n: nat, bits: nat, m: nat): set<seq<Byte>> {
    set s | s in Strings(n) && Masked(s, bits) < m
  }

  lemma {:induction false} AcceptedSize(n: nat, bits: nat, m: nat)
    requires bits <= 8 * n && m <= Pow2(bits)
    ensures |Accepted(n, bits, m)| == m * Pow2(8 * n - bits)
  {
    hide Strings, Masked, Pow2;
    if m == 0 {
      assert Accepted(n, bits, 0) == {};
    } else {
      AcceptedSize(n, bits, m - 1);
      FibreSize(n, bits, m - 1);
      assert Accepted(n, bits, m) == Accepted(n, bits, m - 1) + Fibre(n, bits, m - 1);
      assert Accepted(n, bits, m - 1) !! Fibre(n, bits, m - 1);
      MulDistrib(m - 1, 1, Pow2(8 * n - bits));
    }
  }

  lemma {:induction false} StringsSize(n: nat)
    ensures |Strings(n)| == Pow2(8 * n)
  {
    var all := Fibre(n, 0, 0);
    FibreSize(n, 0, 0);
    assert Pow2(0) == 1;
    assert all == Strings(n);
  }

  /** `_uniformBelow` is exactly uniform: with the byte count and mask it uses for m, each value
      below m has the same number of byte strings, nothing else is accepted, and at least
      half of all byte strings end the loop. */
  lemma UniformIsExact(m: int)
    requires m >= 2
    ensures var bits := BitLength(m);
            var n := ByteLength(bits);
            && bits <= 8 * n
            && (forall x: nat :: x < m ==> |Fibre(n, bits, x)| == Pow2(8 * n - bits))
            && |Accepted(n, bits, m)| == m * Pow2(8 * n - bits)
            && 2 * |Accepted(n, bits, m)| >= |Strings(n)|
  {
    var bits := BitLength(m);
    var n := ByteLength(bits);
    BitLengthBounds(m);
    forall x: nat | x < m
      ensures |Fibre(n, bits, x)| == Pow2(8 * n - bits)
    {
      FibreSize(n, bits, x);
    }
    AcceptedSize(n, bits, m);
    StringsSize(n);
    HalfAccepted(m, bits, Pow2(8 * n - bits), |Strings(n)|) by { Pow2Add(8 * n - bits, bits); }
  }

  lemma HalfAccepted(m: nat, bits: nat, k: nat, total: nat)
    requires 2 * m >= Pow2(bits) && total == k * Pow2(bits)
    ensures 2 * (m * k) >= total
  {
    MulMono(Pow2(bits), 2 * m, k);
    assert (2 * m) * k == 2 * (m * k);
  }
}
