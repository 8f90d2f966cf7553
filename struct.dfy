/**
 * The byte cursor's decoding primitive: Python's struct.calcsize / struct.unpack_from
 * restricted to the big-endian ('>') formats the class-file decoder uses.
 */
module Struct {
  import opened Wrappers
  import opened BigEndian

  /** One conversion code of a big-endian struct format. */
  datatype Code =
    | U8          // 'B': unsigned byte
    | U16         // 'H': unsigned 2-byte integer
    | U32         // 'I': unsigned 4-byte integer
    | S32         // 'i': signed 4-byte integer
    | S64         // 'q': signed 8-byte integer
    | F32         // 'f': 4-byte float, kept as its raw bytes
    | F64         // 'd': 8-byte float, kept as its raw bytes
    | Str(n: nat) // 'Ns': a string of n bytes (one value)

  /** A format string such as ">HH" is the sequence of its codes; ">%sH" % n is Repeat(U16, n). */
  type Format = seq<Code>

  function Repeat(c: Code, n: nat): (f: Format)
    ensures |f| == n && forall i :: 0 <= i < n ==> f[i] == c
  {
    seq(n, _ => c)
  }

  /**
   * A Python value as the decoder produces or stores it. Ref(slot) stands for a reference
   * to the constant-pool entry at that slot, as the pool's resolution pass stores it.
   */
  datatype Value = Int(i: int) | Bytes(b: seq<byte>) | Opaque(bits: seq<byte>) | Ref(slot: int)

  /** What src returns: a lone value for a one-code format, a tuple otherwise. */
  datatype Unpacked = Scalar(v: Value) | Tuple(items: seq<Value>)

  function Items(u: Unpacked): seq<Value>
  {
    match u
    case Scalar(v) => [v]
    case Tuple(vs) => vs
  }

  /** The integer of an unsigned field; every unsigned code yields one. */
  function Num(v: Value): nat
  {
    if v.Int? && v.i >= 0 then v.i else 0
  }

  function Size(c: Code): nat
  {
    match c
    case U8 => 1
    case U16 => 2
    case U32 => 4
    case S32 => 4
    case S64 => 8
    case F32 => 4
    case F64 => 8
    case Str(n) => n
  }

  /** struct.calcsize: big-endian formats have no padding, so the sizes just add up. */
  function CalcSize(fmt: Format): nat
  {
    if fmt == [] then 0 else Size(fmt[0]) + CalcSize(fmt[1..])
  }

  lemma CalcSizeSmall(a: Code, b: Code)
    ensures CalcSize([]) == 0
    ensures CalcSize([a]) == Size(a)
    ensures CalcSize([a, b]) == Size(a) + Size(b)
  {
    assert [a][1..] == [];
    assert [b][1..] == [];
    assert [a, b][1..] == [b];
  }

  lemma {:induction false} CalcSizeAppend(f: Format, g: Format)
    ensures CalcSize(f + g) == CalcSize(f) + CalcSize(g)
  {
    if f != [] {
      assert (f + g)[1..] == f[1..] + g;
      CalcSizeAppend(f[1..], g);
    } else {
      assert f + g == g;
    }
  }

  lemma {:induction false} CalcSizeRepeat(c: Code, n: nat)
    ensures CalcSize(Repeat(c, n)) == n * Size(c)
  {
    if n > 0 {
      assert Repeat(c, n)[1..] == Repeat(c, n - 1);
      CalcSizeRepeat(c, n - 1);
    }
  }

  /** The value of one code read at offset off. */
  function DecodeAt(c: Code, buf: seq<byte>, off: nat): Value
    requires off + Size(c) <= |buf|
  {
    var span := buf[off..off + Size(c)];
    match c
    case U8 => Int(buf[off])
    case U16 => Int(Decode(span))
    case U32 => Int(Decode(span))
    case S32 => Int(DecodeSigned(span))
    case S64 => Int(DecodeSigned(span))
    case F32 => Opaque(span)
    case F64 => Opaque(span)
    case Str(_) => Bytes(span)
  }

  /** The values of a format read from offset off, each code starting where the one before it ends. */
  function Values(fmt: Format, buf: seq<byte>, off: nat): (vs: seq<Value>)
    requires off + CalcSize(fmt) <= |buf|
    ensures |vs| == |fmt|
  {
    if fmt == [] then []
    else [DecodeAt(fmt[0], buf, off)] + Values(fmt[1..], buf, off + Size(fmt[0]))
  }

  /** struct.unpack_from: fails unless the buffer holds calcsize(fmt) bytes from off. */
  function UnpackFrom(fmt: Format, buf: seq<byte>, off: nat): (r: Result<seq<Value>>)
    ensures r.Ok? <==> off + CalcSize(fmt) <= |buf|
    ensures r.Err? ==> r.error == StructError
    ensures r.Ok? ==> |r.value| == |fmt|
  {
    if off + CalcSize(fmt) <= |buf| then Ok(Values(fmt, buf, off)) else Err(StructError)
  }

  /** One read of the cursor: what src returns and where the cursor stands afterwards. */
  datatype Step = Step(value: Unpacked, next: nat)

  /**
   * The class decoder's src(format) at position pos: exactly calcsize(format) bytes are consumed,
   * a one-code format yields a scalar and any other a tuple of as many values as codes.
   * A read past the end raises struct.error and leaves the position where it was.
   */
  function Read(fmt: Format, buf: seq<byte>, pos: nat): (r: Result<Step>)
    ensures r.Ok? <==> pos + CalcSize(fmt) <= |buf|
    ensures r.Err? ==> r.error == StructError
    ensures r.Ok? ==> r.value.next == pos + CalcSize(fmt) <= |buf|
    ensures r.Ok? ==> (r.value.value.Scalar? <==> |fmt| == 1)
    ensures r.Ok? ==> |Items(r.value.value)| == |fmt|
  {
    var tmp :- UnpackFrom(fmt, buf, pos);
    Ok(Step(if |tmp| == 1 then Scalar(tmp[0]) else Tuple(tmp), pos + CalcSize(fmt)))
  }

  /** The values a read yields, in order, with their offsets. */
  lemma ReadItems(fmt: Format, buf: seq<byte>, pos: nat)
    requires pos + CalcSize(fmt) <= |buf|
    ensures Read(fmt, buf, pos).Ok?
    ensures Items(Read(fmt, buf, pos).value.value) == Values(fmt, buf, pos)
  {
  }

  /** Whether a value is one that code c can hold. */
  predicate Fits(c: Code, v: Value)
  {
    match c
    case U8 => v.Int? && 0 <= v.i < 256
    case U16 => v.Int? && 0 <= v.i < Pow256(2)
    case U32 => v.Int? && 0 <= v.i < Pow256(4)
    case S32 => v.Int? && -Half(4) <= v.i < Half(4)
    case S64 => v.Int? && -Half(8) <= v.i < Half(8)
    case F32 => v.Opaque? && |v.bits| == 4
    case F64 => v.Opaque? && |v.bits| == 8
    case Str(n) => v.Bytes? && |v.b| == n
  }

  predicate FitsAll(fmt: Format, vs: seq<Value>)
  {
    |fmt| == |vs| && forall i :: 0 <= i < |fmt| ==> Fits(fmt[i], vs[i])
  }

  /** The bytes of one value under code c: struct.pack for that code. */
  function PackOne(c: Code, v: Value): (r: seq<byte>)
    requires Fits(c, v)
    ensures |r| == Size(c)
  {
    match c
    case U8 => [v.i]
    case U16 => Encode(v.i, 2)
    case U32 => Encode(v.i, 4)
    case S32 => EncodeSigned(v.i, 4)
    case S64 => EncodeSigned(v.i, 8)
    case F32 => v.bits
    case F64 => v.bits
    case Str(_) => v.b
  }

  /** struct.pack for a whole format. */
  function Pack(fmt: Format, vs: seq<Value>): (r: seq<byte>)
    requires FitsAll(fmt, vs)
    ensures |r| == CalcSize(fmt)
  {
    if fmt == [] then [] else PackOne(fmt[0], vs[0]) + Pack(fmt[1..], vs[1..])
  }

  /** Unpacking the bytes of one packed value gives the value back. */
  lemma DecodePacked(c: Code, v: Value, buf: seq<byte>, off: nat)
    requires Fits(c, v)
    requires off + Size(c) <= |buf| && buf[off..off + Size(c)] == PackOne(c, v)
    ensures DecodeAt(c, buf, off) == v
  {
    match c
    case U8 =>
      assert buf[off] == buf[off..off + 1][0];
    case U16 => DecodeEncode(v.i, 2);
    case U32 => DecodeEncode(v.i, 4);
    case S32 => DecodeSignedEncodeSigned(v.i, 4);
    case S64 => DecodeSignedEncodeSigned(v.i, 8);
    case F32 =>
    case F64 =>
    case Str(_) =>
  }

  /** Round trip of the cursor primitive: unpack_from reads back exactly what pack wrote, wherever it sits. */
  lemma UnpackPack(fmt: Format, vs: seq<Value>, buf: seq<byte>, off: nat)
    requires FitsAll(fmt, vs)
    requires off + CalcSize(fmt) <= |buf| && buf[off..off + CalcSize(fmt)] == Pack(fmt, vs)
    ensures UnpackFrom(fmt, buf, off) == Ok(vs)
  {
    ValuesPacked(fmt, vs, buf, off);
  }

  /** A read of packed values yields them: a scalar for one code, a tuple otherwise. */
  lemma ReadPacked(fmt: Format, vs: seq<Value>, buf: seq<byte>, pos: nat, end: nat)
    requires FitsAll(fmt, vs)
    requires end == pos + CalcSize(fmt) && end <= |buf| && buf[pos..end] == Pack(fmt, vs)
    ensures Read(fmt, buf, pos) == Ok(Step(if |vs| == 1 then Scalar(vs[0]) else Tuple(vs), end))
  {
    UnpackPack(fmt, vs, buf, pos);
    ReadUnpacked(fmt, vs, buf, pos);
  }

  lemma ReadUnpacked(fmt: Format, vs: seq<Value>, buf: seq<byte>, pos: nat)
    requires UnpackFrom(fmt, buf, pos) == Ok(vs)
    ensures Read(fmt, buf, pos) == Ok(Step(if |vs| == 1 then Scalar(vs[0]) else Tuple(vs), pos + CalcSize(fmt)))
  {
  }

  /** The bytes of a + b at pos hold a at pos and b right after it. */
  lemma SliceSplit(buf: seq<byte>, pos: nat, a: seq<byte>, b: seq<byte>)
    requires pos + |a + b| <= |buf| && buf[pos..pos + |a + b|] == a + b
    ensures buf[pos..pos + |a|] == a && buf[pos + |a|..pos + |a| + |b|] == b
  {
    assert buf[pos..pos + |a|] == buf[pos..pos + |a + b|][..|a|];
    assert buf[pos + |a|..pos + |a| + |b|] == buf[pos..pos + |a + b|][|a|..];
  }

  lemma {:induction false} ValuesPacked(fmt: Format, vs: seq<Value>, buf: seq<byte>, off: nat)
    requires FitsAll(fmt, vs)
    requires off + CalcSize(fmt) <= |buf| && buf[off..off + CalcSize(fmt)] == Pack(fmt, vs)
    ensures Values(fmt, buf, off) == vs
  {
    if fmt != [] {
      var n := Size(fmt[0]);
      assert Pack(fmt, vs) == PackOne(fmt[0], vs[0]) + Pack(fmt[1..], vs[1..]);
      SliceSplit(buf, off, PackOne(fmt[0], vs[0]), Pack(fmt[1..], vs[1..]));
      DecodePacked(fmt[0], vs[0], buf, off);
      assert FitsAll(fmt[1..], vs[1..]) by {
        forall i | 0 <= i < |fmt| - 1 ensures Fits(fmt[1..][i], vs[1..][i]) {
          assert Fits(fmt[i + 1], vs[i + 1]);
        }
      }
      var off2: nat := off + n;
      ValuesPacked(fmt[1..], vs[1..], buf, off2);
      ValuesCons(fmt, vs, buf, off, off2);
    }
  }

  lemma ValuesCons(fmt: Format, vs: seq<Value>, buf: seq<byte>, off: nat, off2: nat)
    requires fmt != [] && |vs| == |fmt| && off + CalcSize(fmt) <= |buf| && off2 == off + Size(fmt[0])
    requires DecodeAt(fmt[0], buf, off) == vs[0]
    requires off2 + CalcSize(fmt[1..]) <= |buf| && Values(fmt[1..], buf, off2) == vs[1..]
    ensures Values(fmt, buf, off) == vs
  {
    assert vs == [vs[0]] + vs[1..];
  }
}
