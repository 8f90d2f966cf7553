/** Bytes and their big-endian (network order) reading, unsigned and two's complement. */
module BigEndian {

  type byte = b: int | 0 <= b < 256

  /** 256 to the power n: one more than the largest unsigned value of n bytes. */
  function Pow256(n: nat): (r: nat)
    ensures r >= 1
  {
    if n == 0 then 1 else 256 * Pow256(n - 1)
  }

  /** The unsigned value of a big-endian byte string. */
  function Decode(s: seq<byte>): (r: nat)
    ensures r < Pow256(|s|)
  {
    if s == [] then 0
    else
      var d := Decode(s[..|s| - 1]);
      assert d * 256 + s[|s| - 1] < Pow256(|s| - 1) * 256 by {
        assert d + 1 <= Pow256(|s| - 1);
        MulMonotone(d + 1, Pow256(|s| - 1), 256);
      }
      d * 256 + s[|s| - 1]
  }

  lemma MulMonotone(a: nat, b: nat, c: nat)
    requires a <= b
    ensures a * c <= b * c
  {
  }

  /** The n-byte big-endian representation of v (its low 8n bits). */
  function Encode(v: nat, n: nat): (r: seq<byte>)
    ensures |r| == n
  {
    if n == 0 then [] else Encode(v / 256, n - 1) + [v % 256]
  }

  /** Reading back what Encode wrote gives the value, when it fits in n bytes. */
  lemma {:induction false} DecodeEncode(v: nat, n: nat)
    requires v < Pow256(n)
    ensures Decode(Encode(v, n)) == v
  {
    if n > 0 {
      var q, r := v / 256, v % 256;
      assert v == q * 256 + r;
      var s := Encode(v, n);
      assert s == Encode(q, n - 1) + [r];
      assert s[..n - 1] == Encode(q, n - 1) && s[n - 1] == r;
      assert q < Pow256(n - 1);
      DecodeEncode(q, n - 1);
      assert Decode(s) == Decode(s[..n - 1]) * 256 + s[n - 1];
    }
  }

  /** Encoding a decoded string gives the string back. */
  lemma {:induction false} EncodeDecode(s: seq<byte>)
    ensures Encode(Decode(s), |s|) == s
  {
    if s != [] {
      var p := s[..|s| - 1];
      var d := Decode(p);
      var v := d * 256 + s[|s| - 1];
      assert v / 256 == d && v % 256 == s[|s| - 1];
      EncodeDecode(p);
      assert s == p + [s[|s| - 1]];
    }
  }

  /** Half the unsigned range of n bytes: the two's-complement values of n bytes are -Half(n) .. Half(n) - 1. */
  function Half(n: nat): int
  {
    Pow256(n) / 2
  }

  /** The two's-complement value of a big-endian byte string. */
  function DecodeSigned(s: seq<byte>): (r: int)
    ensures -Half(|s|) <= r < Half(|s|) || s == []
    ensures 0 <= r ==> r == Decode(s)
  {
    var u := Decode(s);
    if u >= Half(|s|) then u - Pow256(|s|) else u
  }

  /** The n-byte two's-complement representation of v. */
  function EncodeSigned(v: int, n: nat): (r: seq<byte>)
    requires -Half(n) <= v < Half(n)
    ensures |r| == n
  {
    Encode(if v < 0 then v + Pow256(n) else v, n)
  }

  /** Reading back what EncodeSigned wrote gives the value. */
  lemma DecodeSignedEncodeSigned(v: int, n: nat)
    requires -Half(n) <= v < Half(n)
    ensures DecodeSigned(EncodeSigned(v, n)) == v
  {
    var u := if v < 0 then v + Pow256(n) else v;
    DecodeEncode(u, n);
  }
}
