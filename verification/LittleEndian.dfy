/** Fixed-width little-endian integers. */
module LittleEndian {
  import opened Common

  function Pow256(n: nat): (r: nat)
    ensures r > 0
  {
    if n == 0 then 1 else 256 * Pow256(n - 1)
  }

  /** The low `n` bytes of `v`, lowest first. */
  function Encode(v: nat, n: nat): (b: seq<Byte>)
    ensures |b| == n
  {
    if n == 0 then [] else [v % 256] + Encode(v / 256, n - 1)
  }

  function Decode(b: seq<Byte>): nat {
    if b == [] then 0 else b[0] + 256 * Decode(b[1..])
  }

  lemma {:induction false} DecodeEncode(v: nat, n: nat)
    requires v < Pow256(n)
    ensures Decode(Encode(v, n)) == v
  {
    if n > 0 {
      DecodeEncode(v / 256, n - 1);
    }
  }

  lemma {:induction false} EncodeDecode(b: seq<Byte>)
    ensures Decode(b) < Pow256(|b|) && Encode(Decode(b), |b|) == b
  {
    if b != [] {
      EncodeDecode(b[1..]);
    }
  }

  /** The digit of weight 256 to the power of `i`. */
  function Digit(v: nat, i: nat): (b: Byte) { v / Pow256(i) % 256 }

  lemma {:induction false} EncodeAt(v: nat, n: nat, i: nat)
    requires i < n
    ensures Encode(v, n)[i] == Digit(v, i)
  {
    if i > 0 {
      EncodeAt(v / 256, n - 1, i - 1);
      DivTwice(v, Pow256(i - 1));
    }
  }

  lemma DivTwice(v: nat, m: nat)
    requires m > 0
    ensures v / 256 / m == v / (256 * m)
  {
    var q, r := v / 256 / m, v / 256 % m;
    assert v / 256 == q * m + r;
    assert v == (256 * m) * q + (256 * r + v % 256);
    QuotientIs(v, 256 * m, q, 256 * r + v % 256);
  }

  lemma Limits()
    ensures Pow256(8) == 0x1_0000_0000_0000_0000 && Pow256(2) == 0x1_0000
  {
    assert Pow256(2) == 0x1_0000;
    assert Pow256(4) == 0x1_0000_0000;
    assert Pow256(6) == 0x1_0000_0000_0000;
  }
}
