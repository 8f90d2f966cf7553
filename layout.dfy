/**
 * Where _load_from_buffer finds each part of a class file it accepts: the magic number in the
 * first four bytes, the minor and major version after it, the pool count at offset 8 and the
 * entries from offset 10, then the flags, the two class indices, the interface count and the
 * interface indices, each a 2-byte big-endian field.
 */
module ClassLayout {
  import opened Wrappers
  import opened BigEndian
  import opened Struct
  import opened ConstantPool
  import opened ClassFile

  /** The unsigned 2-byte big-endian field at offset pos. */
  function Word(buf: seq<byte>, pos: nat): int
    requires pos + 2 <= |buf|
  {
    Decode(buf[pos..pos + 2])
  }

  /** The n 2-byte fields ">%sH" % n reads from off, one after another. */
  lemma {:induction false} ValuesWords(buf: seq<byte>, off: nat, n: nat)
    requires off + 2 * n <= |buf|
    ensures CalcSize(Repeat(U16, n)) == 2 * n
    ensures forall i :: 0 <= i < n ==> Values(Repeat(U16, n), buf, off)[i] == Int(Word(buf, off + 2 * i))
    decreases n
  {
    CalcSizeRepeat(U16, n);
    if n > 0 {
      var f, g := Repeat(U16, n), Repeat(U16, n - 1);
      assert f[1..] == g;
      ValuesWords(buf, off + 2, n - 1);
      var vs, rest := Values(f, buf, off), Values(g, buf, off + 2);
      assert vs[0] == DecodeAt(U16, buf, off) && vs[1..] == rest;
      forall i | 0 <= i < n ensures vs[i] == Int(Word(buf, off + 2 * i)) {
        if i > 0 {
          var j := i - 1;
          assert off + 2 + 2 * j == off + 2 * i;
          assert vs[i] == rest[j];
        }
      }
    }
  }

  /** src(">%sH" % n): n 2-byte fields, a scalar when n is 1, advancing the cursor by 2n. */
  lemma ReadWords(buf: seq<byte>, pos: nat, n: nat)
    ensures Read(Repeat(U16, n), buf, pos).Ok? <==> pos + 2 * n <= |buf|
    ensures Read(Repeat(U16, n), buf, pos).Ok? ==>
      var s := Read(Repeat(U16, n), buf, pos).value;
      && s.next == pos + 2 * n
      && (s.value.Scalar? <==> n == 1)
      && |Items(s.value)| == n
      && forall i :: 0 <= i < n ==> Items(s.value)[i] == Int(Word(buf, pos + 2 * i))
  {
    CalcSizeRepeat(U16, n);
    if pos + 2 * n <= |buf| {
      ReadItems(Repeat(U16, n), buf, pos);
      ValuesWords(buf, pos, n);
    }
  }

  /** src(">HHHH"): the four words after the pool. */
  lemma ReadHead(buf: seq<byte>, pos: nat)
    requires pos + 8 <= |buf|
    ensures Read([U16, U16, U16, U16], buf, pos).Ok?
    ensures var s := Read([U16, U16, U16, U16], buf, pos).value;
      && s.next == pos + 8
      && Items(s.value) == [Int(Word(buf, pos)), Int(Word(buf, pos + 2)), Int(Word(buf, pos + 4)), Int(Word(buf, pos + 6))]
  {
    assert [U16, U16, U16, U16] == Repeat(U16, 4);
    ReadWords(buf, pos, 4);
    var h := Items(Read(Repeat(U16, 4), buf, pos).value.value);
    assert h[0] == Int(Word(buf, pos + 2 * 0));
    assert h[1] == Int(Word(buf, pos + 2 * 1));
    assert h[2] == Int(Word(buf, pos + 2 * 2));
    assert h[3] == Int(Word(buf, pos + 2 * 3));
  }

  /**
   * After the pool, at pos: the flags, the index of this class and of its superclass, whose
   * names are looked up in the resolved pool, the interface count n and n interface indices;
   * the tables start after them.
   */
  lemma HeaderLayout(buf: seq<byte>, pos: nat, version: (int, int), constants: Pool, t: Tables)
    requires ParseHeader(buf, pos, version, constants, t).Ok?
    ensures pos + 8 <= |buf|
    ensures var d, n := ParseHeader(buf, pos, version, constants, t).value, Word(buf, pos + 6);
      && pos + 8 + 2 * n <= d.end <= |buf|
      && d.version == version && d.constants == constants
      && d.flags == Word(buf, pos)
      && ClassName(constants, Int(Word(buf, pos + 2))) == Ok(d.thisClass)
      && ClassName(constants, Int(Word(buf, pos + 4))) == Ok(d.superclass)
      && |Items(d.interfaces)| == n && (d.interfaces.Scalar? <==> n == 1)
      && (forall i :: 0 <= i < n ==> Items(d.interfaces)[i] == Int(Word(buf, pos + 8 + 2 * i)))
      && ParseTables(buf, d.(end := pos + 8 + 2 * n), t) == Ok(d)
  {
    ReadHead(buf, pos);
    var q, n := pos + 8, Word(buf, pos + 6);
    assert Num(Int(n)) == n;
    ReadWords(buf, q, n);
  }

  /** src(">H"): one word, as a scalar. */
  lemma ReadWord(buf: seq<byte>, pos: nat)
    requires pos + 2 <= |buf|
    ensures Read([U16], buf, pos) == Ok(Step(Scalar(Int(Word(buf, pos))), pos + 2))
  {
    assert [U16] == Repeat(U16, 1);
    ReadWords(buf, pos, 1);
  }

  /**
   * From pos, just after the magic number: the minor version, the major version, the pool count
   * and the pool entries; the version is stored major first. The pool the object keeps is the
   * resolved form of the entries as read, and the rest of the header follows the entries.
   */
  lemma BodyLayout(buf: seq<byte>, pos: nat, t: Tables)
    requires ParseBody(buf, pos, t).Ok?
    ensures pos + 6 <= |buf|
    ensures var d, count := ParseBody(buf, pos, t).value, Word(buf, pos + 4);
      && d.version == (Word(buf, pos + 2), Word(buf, pos))
      && ReadPool(buf, pos + 6, 1, count, map[]).Ok?
      && var raw := ReadPool(buf, pos + 6, 1, count, map[]).value;
      && Resolve(raw.0) == Ok(d.constants)
      && ParseHeader(buf, raw.1, d.version, d.constants, t) == Ok(d)
  {
    assert [U16, U16] == Repeat(U16, 2);
    ReadWords(buf, pos, 2);
    var v := Items(Read(Repeat(U16, 2), buf, pos).value.value);
    assert v[0] == Int(Word(buf, pos + 2 * 0)) && v[1] == Int(Word(buf, pos + 2 * 1));
    var c := pos + 4;
    ReadWord(buf, c);
    var pool := LoadPool(buf, c).value;
    HeaderLayout(buf, pool.1, (Word(buf, pos + 2), Word(buf, pos)), pool.0, t);
  }

  /**
   * The magic number decides first: a buffer shorter than 4 bytes fails in src, a wrong number
   * raises ClassError("invalid class file") whatever follows it, and the right one hands the
   * cursor, at 4, on to the rest of the decoder.
   */
  lemma MagicNumber(buf: seq<byte>, t: Tables)
    ensures |buf| < 4 ==> Parse(buf, t) == Err(StructError)
    ensures |buf| >= 4 && Decode(buf[..4]) != Magic ==> Parse(buf, t) == Err(ClassError("invalid class file"))
    ensures |buf| >= 4 && Decode(buf[..4]) == Magic ==> Parse(buf, t) == ParseBody(buf, 4, t)
  {
    assert CalcSize([U32]) == 4 by { CalcSizeSmall(U32, U32); }
    if |buf| >= 4 {
      ReadItems([U32], buf, 0);
      assert [U32][..0] == [];
    }
  }

  /** Every class file the decoder accepts starts with the bytes CA FE BA BE. */
  lemma MagicBytes(buf: seq<byte>, t: Tables)
    requires Parse(buf, t).Ok?
    ensures |buf| >= 4 && buf[..4] == [0xCA, 0xFE, 0xBA, 0xBE]
  {
    MagicNumber(buf, t);
    var m := buf[..4];
    EncodeDecode(m);
    MagicEncoding();
  }

  /** The four bytes of the magic number, most significant first. */
  lemma MagicEncoding()
    ensures Encode(Magic, 4) == [0xCA, 0xFE, 0xBA, 0xBE]
  {
    assert Encode(0xCA, 1) == Encode(0, 0) + [0xCA];
    assert Encode(0xCAFE, 2) == Encode(0xCA, 1) + [0xFE];
    assert Encode(0xCAFEBA, 3) == Encode(0xCAFE, 2) + [0xBA];
    assert Encode(0xCAFEBABE, 4) == Encode(0xCAFEBA, 3) + [0xBE];
  }

  /**
   * A decoded class file: magic, then minor and major version at 4 and 6, the pool count at 8
   * and the entries from 10, numbered from slot 1 with Long and Double taking two slots; the
   * kept pool is their resolution, and the header after the entries gives the rest.
   */
  lemma ParseLayout(buf: seq<byte>, t: Tables)
    requires Parse(buf, t).Ok?
    ensures 10 <= |buf| && buf[..4] == [0xCA, 0xFE, 0xBA, 0xBE]
    ensures var d, count := Parse(buf, t).value, Word(buf, 8);
      && d.version == (Word(buf, 6), Word(buf, 4))
      && ReadPool(buf, 10, 1, count, map[]).Ok?
      && var raw := ReadPool(buf, 10, 1, count, map[]).value;
      && SlotsNumbered(raw.0, count) && Tagged(raw.0)
      && Resolve(raw.0) == Ok(d.constants)
      && ParseHeader(buf, raw.1, d.version, d.constants, t) == Ok(d)
  {
    MagicBytes(buf, t);
    MagicNumber(buf, t);
    assert Decode(buf[..4]) == Magic;
    var pos, d := 4, Parse(buf, t).value;
    assert ParseBody(buf, pos, t) == Ok(d);
    BodyLayout(buf, pos, t);
    var count := Word(buf, pos + 4);
    PoolSlots(buf, pos + 6, count);
  }

  /**
   * this and superclass of a decoded class are the names, in the pool as read, of the class
   * entries that the words at 2 and 4 bytes past the pool index.
   */
  lemma ClassNames(buf: seq<byte>, t: Tables)
    requires Parse(buf, t).Ok?
    ensures 10 <= |buf| && ReadPool(buf, 10, 1, Word(buf, 8), map[]).Ok?
    ensures var d, raw := Parse(buf, t).value, ReadPool(buf, 10, 1, Word(buf, 8), map[]).value;
      && raw.1 + 8 <= |buf|
      && NameOf(raw.0, Int(Word(buf, raw.1 + 2))) == Some(d.thisClass)
      && NameOf(raw.0, Int(Word(buf, raw.1 + 4))) == Some(d.superclass)
  {
    ParseLayout(buf, t);
    var d, count := Parse(buf, t).value, Word(buf, 8);
    var raw := ReadPool(buf, 10, 1, count, map[]).value;
    ReadPoolFields(buf, 10, 1, count, map[]);
    HeaderLayout(buf, raw.1, d.version, d.constants, t);
    ClassNameResolved(raw.0, d.constants, Int(Word(buf, raw.1 + 2)));
    ClassNameResolved(raw.0, d.constants, Int(Word(buf, raw.1 + 4)));
  }
}
