/**
 * ClassFile._load_from_buffer: one cursor over the bytes of a class file reads the magic number,
 * the version, the constant pool, the access flags, this and super class, the interface indices,
 * and hands the cursor on to the field, method and attribute tables. The layout is that of
 * section 4.1 of the Java Virtual Machine Specification.
 */
module ClassFile {
  import opened Wrappers
  import opened BigEndian
  import opened Struct
  import opened ConstantPool

  /** The first four bytes of every class file. */
  const Magic := 0xCAFEBABE

  /**
   * FieldTable, MethodTable and AttributeTable, whose code is not part of this model: given the
   * buffer, the cursor and the resolved pool, the number of bytes the table reads, or what it raises.
   */
  type TableReader = (seq<byte>, nat, Pool) -> Result<nat>

  datatype Tables = Tables(fields: TableReader, methods: TableReader, attributes: TableReader)

  /** The cursor after a table; like every read of src, a table cannot read past the end. */
  function ReadTable(reader: TableReader, buf: seq<byte>, pos: nat, pool: Pool): (r: Result<nat>)
    ensures r.Ok? ==> pos <= r.value <= |buf|
    ensures r.Ok? <==> reader(buf, pos, pool).Ok? && pos + reader(buf, pos, pool).value <= |buf|
  {
    var n :- reader(buf, pos, pool);
    if pos + n <= |buf| then Ok(pos + n) else Err(StructError)
  }

  /** What a loaded ClassFile holds: the attributes _load_from_buffer sets, and where its cursor ends. */
  datatype ClassData = ClassData(
    version: (int, int),
    constants: Pool,
    flags: int,
    thisClass: Value,
    superclass: Value,
    interfaces: Unpacked,
    end: nat)

  /** _load_constant_pool with the cursor at pos: the count, the entries, then the resolution pass. */
  function LoadPool(buf: seq<byte>, pos: nat): (r: Result<(Pool, nat)>)
    ensures r.Err? ==> r.error in {StructError, KeyError}
    ensures r.Ok? ==> pos + 2 <= r.value.1 <= |buf|
  {
    var c :- Read([U16], buf, pos);
    var p :- ReadPool(buf, c.next, 1, Num(Items(c.value)[0]), map[]);
    var constants :- Resolve(p.0);
    Ok((constants, p.1))
  }

  /** The whole of _load_from_buffer: a wrong magic number is a ClassError before anything else is read. */
  function Parse(buf: seq<byte>, t: Tables): (r: Result<ClassData>)
  {
    var magic :- Read([U32], buf, 0);
    if Items(magic.value)[0] != Int(Magic) then Err(ClassError("invalid class file"))
    else ParseBody(buf, magic.next, t)
  }

  /** _load_from_buffer after the magic number, with the cursor at pos: the version and the pool. */
  function ParseBody(buf: seq<byte>, pos: nat, t: Tables): (r: Result<ClassData>)
    ensures r.Ok? ==> pos + 14 <= r.value.end <= |buf|
  {
    var ver :- Read([U16, U16], buf, pos);
    var pool :- LoadPool(buf, ver.next);
    // the minor version is read first, the pair is stored major first
    ParseHeader(buf, pool.1, (Num(Items(ver.value)[1]), Num(Items(ver.value)[0])), pool.0, t)
  }

  /** The four 2-byte fields after the pool, the class names, and the interface indices. */
  function ParseHeader(buf: seq<byte>, pos: nat, version: (int, int), constants: Pool, t: Tables): (r: Result<ClassData>)
    ensures r.Ok? ==> pos + 8 <= r.value.end <= |buf|
  {
    var head :- Read([U16, U16, U16, U16], buf, pos);
    var h := Items(head.value);
    var thisClass :- ClassName(constants, h[1]);
    var superclass :- ClassName(constants, h[2]);
    var interfaces :- Read(Repeat(U16, Num(h[3])), buf, head.next);
    ParseTables(buf, ClassData(version, constants, Num(h[0]), thisClass, superclass, interfaces.value, interfaces.next), t)
  }

  /** The field, method and attribute tables, one after another from d.end. */
  function ParseTables(buf: seq<byte>, d: ClassData, t: Tables): (r: Result<ClassData>)
    ensures r.Ok? ==> d.end <= r.value.end <= |buf| && r.value == d.(end := r.value.end)
  {
    var f :- ReadTable(t.fields, buf, d.end, d.constants);
    var m :- ReadTable(t.methods, buf, f, d.constants);
    var a :- ReadTable(t.attributes, buf, m, d.constants);
    Ok(d.(end := a))
  }

  /**
   * The tables share one cursor, handed to FieldTable, MethodTable and AttributeTable in this
   * order: the field table reads from d.end, the method table from where the field table stopped,
   * the attribute table from where the method table stopped, and the cursor ends after it.
   */
  lemma TableOrder(buf: seq<byte>, d: ClassData, t: Tables)
    requires ParseTables(buf, d, t).Ok?
    ensures var nf := t.fields(buf, d.end, d.constants);
      && nf.Ok?
      && var f := d.end + nf.value;
      var nm := t.methods(buf, f, d.constants);
      && nm.Ok?
      && var m := f + nm.value;
      var na := t.attributes(buf, m, d.constants);
      && na.Ok?
      && ParseTables(buf, d, t).value.end == m + na.value
  {
  }

  /** Conversely, three readers that succeed one after another within the buffer give that cursor. */
  lemma TableRun(buf: seq<byte>, d: ClassData, t: Tables, nf: nat, nm: nat, na: nat)
    requires t.fields(buf, d.end, d.constants) == Ok(nf)
    requires t.methods(buf, d.end + nf, d.constants) == Ok(nm)
    requires t.attributes(buf, d.end + nf + nm, d.constants) == Ok(na)
    requires d.end + nf + nm + na <= |buf|
    ensures ParseTables(buf, d, t) == Ok(d.(end := d.end + nf + nm + na))
  {
  }

  /** The first table reader that fails decides the error, and the readers after it do not run. */
  lemma TableErrors(buf: seq<byte>, d: ClassData, t: Tables, nf: nat, nm: nat)
    ensures t.fields(buf, d.end, d.constants).Err? ==>
      ParseTables(buf, d, t) == Err(t.fields(buf, d.end, d.constants).error)
    ensures (t.fields(buf, d.end, d.constants) == Ok(nf) && d.end + nf <= |buf| &&
             t.methods(buf, d.end + nf, d.constants).Err?) ==>
      ParseTables(buf, d, t) == Err(t.methods(buf, d.end + nf, d.constants).error)
    ensures (t.fields(buf, d.end, d.constants) == Ok(nf) && d.end + nf <= |buf| &&
             t.methods(buf, d.end + nf, d.constants) == Ok(nm) && d.end + nf + nm <= |buf| &&
             t.attributes(buf, d.end + nf + nm, d.constants).Err?) ==>
      ParseTables(buf, d, t) == Err(t.attributes(buf, d.end + nf + nm, d.constants).error)
  {
  }

  /** The class access flags of Table 4.1-A of the Java Virtual Machine Specification. */
  datatype Modifier = Public | Final | Super | Interface | Abstract | Synthetic | Annotation | Enum

  const AllModifiers: set<Modifier> := {Public, Final, Super, Interface, Abstract, Synthetic, Annotation, Enum}

  /** The bit of the flags word that carries each modifier. */
  function Mask(m: Modifier): int
  {
    match m
    case Public => 0x0001
    case Final => 0x0010
    case Super => 0x0020
    case Interface => 0x0200
    case Abstract => 0x0400
    case Synthetic => 0x1000
    case Annotation => 0x2000
    case Enum => 0x4000
  }

  /**
   * Bit k of flags, for a mask of the single bit 2^k. For the 16-bit words that ">H" yields this
   * is Python's flags & mask != 0 (ModifierTests).
   */
  predicate HasFlag(flags: int, mask: int)
    requires mask > 0
  {
    (flags / mask) % 2 == 1
  }

  predicate IsPublic(flags: int) { HasFlag(flags, 0x0001) }
  predicate IsFinal(flags: int) { HasFlag(flags, 0x0010) }
  predicate IsSuper(flags: int) { HasFlag(flags, 0x0020) }
  predicate IsInterface(flags: int) { HasFlag(flags, 0x0200) }
  predicate IsAbstract(flags: int) { HasFlag(flags, 0x0400) }
  predicate IsSynthetic(flags: int) { HasFlag(flags, 0x1000) }
  predicate IsAnnotation(flags: int) { HasFlag(flags, 0x2000) }
  predicate IsEnum(flags: int) { HasFlag(flags, 0x4000) }

  /** The modifiers whose bit is set in flags. */
  function AccessFlags(flags: int): set<Modifier>
  {
    set m | m in AllModifiers && HasFlag(flags, Mask(m))
  }

  /** The flags word that sets exactly the bits of the given modifiers. */
  function FlagsOf(ms: set<Modifier>): (flags: int)
    ensures 0 <= flags < 0x1_0000
  {
    FlagWord(Public in ms, Final in ms, Super in ms, Interface in ms,
         Abstract in ms, Synthetic in ms, Annotation in ms, Enum in ms)
  }

  /** The flags word with the modifier bits set as the arguments say, in mask order. */
  function FlagWord(p: bool, f: bool, s: bool, i: bool, a: bool, y: bool, n: bool, e: bool): int
  {
    (if p then 0x0001 else 0) + (if f then 0x0010 else 0) +
    (if s then 0x0020 else 0) + (if i then 0x0200 else 0) +
    (if a then 0x0400 else 0) + (if y then 0x1000 else 0) +
    (if n then 0x2000 else 0) + (if e then 0x4000 else 0)
  }

  // Each mask's bit in Word is set exactly when its argument is true, one lemma per bit.

  lemma WordPublic(w: int, p: bool, f: bool, s: bool, i: bool, a: bool, y: bool, n: bool, e: bool)
    requires w == FlagWord(p, f, s, i, a, y, n, e)
    ensures HasFlag(w, 0x0001) <==> p
  {
  }

  lemma WordFinal(w: int, p: bool, f: bool, s: bool, i: bool, a: bool, y: bool, n: bool, e: bool)
    requires w == FlagWord(p, f, s, i, a, y, n, e)
    ensures HasFlag(w, 0x0010) <==> f
  {
  }

  lemma WordSuper(w: int, p: bool, f: bool, s: bool, i: bool, a: bool, y: bool, n: bool, e: bool)
    requires w == FlagWord(p, f, s, i, a, y, n, e)
    ensures HasFlag(w, 0x0020) <==> s
  {
  }

  lemma WordInterface(w: int, p: bool, f: bool, s: bool, i: bool, a: bool, y: bool, n: bool, e: bool)
    requires w == FlagWord(p, f, s, i, a, y, n, e)
    ensures HasFlag(w, 0x0200) <==> i
  {
  }

  lemma WordAbstract(w: int, p: bool, f: bool, s: bool, i: bool, a: bool, y: bool, n: bool, e: bool)
    requires w == FlagWord(p, f, s, i, a, y, n, e)
    ensures HasFlag(w, 0x0400) <==> a
  {
  }

  lemma WordSynthetic(w: int, p: bool, f: bool, s: bool, i: bool, a: bool, y: bool, n: bool, e: bool)
    requires w == FlagWord(p, f, s, i, a, y, n, e)
    ensures HasFlag(w, 0x1000) <==> y
  {
  }

  lemma WordAnnotation(w: int, p: bool, f: bool, s: bool, i: bool, a: bool, y: bool, n: bool, e: bool)
    requires w == FlagWord(p, f, s, i, a, y, n, e)
    ensures HasFlag(w, 0x2000) <==> n
  {
  }

  lemma WordEnum(w: int, p: bool, f: bool, s: bool, i: bool, a: bool, y: bool, n: bool, e: bool)
    requires w == FlagWord(p, f, s, i, a, y, n, e)
    ensures HasFlag(w, 0x4000) <==> e
  {
  }

  /**
   * Each is_* property of a flags word read with ">H" is Python's test flags & mask != 0 for its
   * mask of Table 4.1-A.
   */
  lemma ModifierTests(flags: int)
    requires 0 <= flags < 0x1_0000
    ensures IsPublic(flags) <==> (flags as bv16) & 0x0001 != 0
    ensures IsFinal(flags) <==> (flags as bv16) & 0x0010 != 0
    ensures IsSuper(flags) <==> (flags as bv16) & 0x0020 != 0
    ensures IsInterface(flags) <==> (flags as bv16) & 0x0200 != 0
    ensures IsAbstract(flags) <==> (flags as bv16) & 0x0400 != 0
    ensures IsSynthetic(flags) <==> (flags as bv16) & 0x1000 != 0
    ensures IsAnnotation(flags) <==> (flags as bv16) & 0x2000 != 0
    ensures IsEnum(flags) <==> (flags as bv16) & 0x4000 != 0
  {
  }

  /** Reading the modifiers back from the flags word built for them gives them back. */
  lemma AccessFlagsOf(ms: set<Modifier>)
    ensures AccessFlags(FlagsOf(ms)) == ms
  {
    forall m ensures m in AccessFlags(FlagsOf(ms)) <==> m in ms {
      MaskOf(ms, m);
    }
  }

  /** The bit of one modifier in the flags word built for a set of modifiers. */
  lemma MaskOf(ms: set<Modifier>, m: Modifier)
    ensures m in AllModifiers
    ensures HasFlag(FlagsOf(ms), Mask(m)) <==> m in ms
  {
    var p, f, s, i := Public in ms, Final in ms, Super in ms, Interface in ms;
    var a, y, n, e := Abstract in ms, Synthetic in ms, Annotation in ms, Enum in ms;
    var w := FlagsOf(ms);
    match m
    case Public => WordPublic(w, p, f, s, i, a, y, n, e);
    case Final => WordFinal(w, p, f, s, i, a, y, n, e);
    case Super => WordSuper(w, p, f, s, i, a, y, n, e);
    case Interface => WordInterface(w, p, f, s, i, a, y, n, e);
    case Abstract => WordAbstract(w, p, f, s, i, a, y, n, e);
    case Synthetic => WordSynthetic(w, p, f, s, i, a, y, n, e);
    case Annotation => WordAnnotation(w, p, f, s, i, a, y, n, e);
    case Enum => WordEnum(w, p, f, s, i, a, y, n, e);
  }

  /** Rebuilding the flags word from its modifiers keeps the answer of every is_* test. */
  lemma FlagsOfAccess(flags: int)
    ensures AccessFlags(FlagsOf(AccessFlags(flags))) == AccessFlags(flags)
    ensures forall m :: HasFlag(FlagsOf(AccessFlags(flags)), Mask(m)) <==> HasFlag(flags, Mask(m))
  {
    AccessFlagsOf(AccessFlags(flags));
    forall m ensures HasFlag(FlagsOf(AccessFlags(flags)), Mask(m)) <==> HasFlag(flags, Mask(m)) {
      MaskOf(AccessFlags(flags), m);
    }
  }

  /** A loaded class file: the fields _load_from_buffer assigns, and the cursor _pos of src. */
  class ClassFile {
    var pos: nat
    var version: (int, int)
    var constants: Pool
    var flags: int
    var thisClass: Value
    var superclass: Value
    var interfaces: Unpacked

    /** The state of the object, to compare with Parse. */
    function Data(): ClassData
      reads this
    {
      ClassData(version, constants, flags, thisClass, superclass, interfaces, pos)
    }

    constructor Empty()
      ensures pos == 0 && constants == map[]
    {
      pos := 0;
      version := (0, 0);
      constants := map[];
      flags := 0;
      thisClass := Int(0);
      superclass := Int(0);
      interfaces := Tuple([]);
    }

    /** ClassFile(buff, str_as_buffer=True): a new object loaded from the bytes, or the error raised. */
    static method FromBuffer(buf: seq<byte>, t: Tables) returns (r: Result<ClassFile>)
      ensures r.Ok? <==> Parse(buf, t).Ok?
      ensures r.Ok? ==> fresh(r.value) && r.value.Data() == Parse(buf, t).value
      ensures r.Err? ==> r.error == Parse(buf, t).error
    {
      var c := new ClassFile.Empty();
      var loaded := c.LoadFromBuffer(buf, t);
      if loaded.Err? {
        return Err(loaded.error);
      }
      return Ok(c);
    }

    /**
     * src(format): calcsize(format) bytes are unpacked at _pos and _pos advances by that many;
     * one value comes back as a scalar, several as a tuple. A failed unpack leaves _pos alone.
     */
    method Src(buf: seq<byte>, fmt: Format) returns (r: Result<Unpacked>)
      modifies this`pos
      ensures Read(fmt, buf, old(pos)).Ok? ==>
        r == Ok(Read(fmt, buf, old(pos)).value.value) && pos == Read(fmt, buf, old(pos)).value.next
      ensures Read(fmt, buf, old(pos)).Err? ==> r == Err(StructError) && pos == old(pos)
    {
      var length := CalcSize(fmt);
      var tmp := UnpackFrom(fmt, buf, pos);
      if tmp.Err? {
        return Err(tmp.error);
      }
      pos := pos + length;
      return Ok(if |tmp.value| == 1 then Scalar(tmp.value[0]) else Tuple(tmp.value));
    }

    /** The body of the while loop of _load_constant_pool for one tag: the entry's fields. */
    method LoadEntry(buf: seq<byte>, tag: int) returns (r: Result<Entry>)
      modifies this`pos
      ensures ReadInfo(tag, buf, old(pos)).Ok? ==>
        r == Ok(ReadInfo(tag, buf, old(pos)).value.0) && pos == ReadInfo(tag, buf, old(pos)).value.1
      ensures ReadInfo(tag, buf, old(pos)).Err? ==> r == Err(ReadInfo(tag, buf, old(pos)).error)
    {
      ghost var start := pos;
      if tag == TagClass {
        var s :- Src(buf, [U16]);
        return Ok(map["name_index" := Items(s)[0]]);
      } else if tag in {TagFieldref, TagMethodref, TagInterfaceMethodref} {
        var s :- Src(buf, [U16, U16]);
        return Ok(map["class_index" := Items(s)[0], "name_and_type_index" := Items(s)[1]]);
      } else if tag == TagString {
        var s :- Src(buf, [U16]);
        return Ok(map["string_index" := Items(s)[0]]);
      } else if tag == TagInteger {
        var s :- Src(buf, [S32]);
        return Ok(map["value" := Items(s)[0]]);
      } else if tag == TagFloat {
        var s :- Src(buf, [F32]);
        return Ok(map["value" := Items(s)[0]]);
      } else if tag == TagLong {
        var s :- Src(buf, [S64]);
        return Ok(map["value" := Items(s)[0]]);
      } else if tag == TagDouble {
        var s :- Src(buf, [F64]);
        return Ok(map["value" := Items(s)[0]]);
      } else if tag == TagNameAndType {
        var s :- Src(buf, [U16, U16]);
        return Ok(map["name_index" := Items(s)[0], "descriptor_index" := Items(s)[1]]);
      } else if tag == TagUtf8 {
        ReadUtf8Reads(buf, start);
        var length :- Src(buf, [U16]);
        var s :- Src(buf, [Str(Num(Items(length)[0]))]);
        return Ok(map["value" := Items(s)[0]]);
      } else {
        // constant_pool[x]["tag"] = tag on a slot that no branch filled
        return Err(KeyError);
      }
    }

    /**
     * _load_constant_pool: the count, then while x < count a tag and its entry, stored with the tag
     * at slot x, x stepping by 2 past a Long or Double and by 1 otherwise; then the resolution pass.
     */
    method LoadConstantPool(buf: seq<byte>) returns (r: Result<()>)
      modifies this`pos, this`constants
      ensures LoadPool(buf, old(pos)).Ok? ==>
        r.Ok? && constants == LoadPool(buf, old(pos)).value.0 && pos == LoadPool(buf, old(pos)).value.1
      ensures LoadPool(buf, old(pos)).Err? ==> r == Err(LoadPool(buf, old(pos)).error)
    {
      var c :- Src(buf, [U16]);
      var count := Num(Items(c)[0]);
      var constantPool :- ReadEntries(buf, count);
      var resolved :- ResolveIndices(constantPool);
      constants := resolved;
      return Ok(());
    }

    /** The while loop of _load_constant_pool: the entries of slots 1 up to count, each with its tag. */
    method ReadEntries(buf: seq<byte>, count: int) returns (r: Result<Pool>)
      modifies this`pos
      ensures var spec := ReadPool(buf, old(pos), 1, count, map[]);
        && (spec.Ok? ==> r == Ok(spec.value.0) && pos == spec.value.1)
        && (spec.Err? ==> r == Err(spec.error))
    {
      ghost var pooled := ReadPool(buf, pos, 1, count, map[]);
      var constantPool: Pool := map[];
      var x := 1;
      while x < count
        invariant pooled == ReadPool(buf, pos, x, count, constantPool)
        decreases count - x
      {
        ghost var here := pos;
        var t := Src(buf, [U8]);
        if t.Err? {
          ReadPoolTagFails(buf, here, x, count, constantPool);
          return Err(t.error);
        }
        var tag := Num(Items(t.value)[0]);
        ghost var step := Step(t.value, pos);
        var e := LoadEntry(buf, tag);
        if e.Err? {
          ReadPoolInfoFails(buf, here, x, count, constantPool, step, tag);
          return Err(e.error);
        }
        ghost var info, before := (e.value, pos), constantPool;
        constantPool := constantPool[x := e.value["tag" := Int(tag)]];
        var next := x + Stride(tag);
        ReadPoolTurn(buf, here, x, count, before, step, tag, info, next, constantPool);
        x := next;
      }
      return Ok(constantPool);
    }

    /** A table reader handed src and the pool: the cursor moves past the bytes it reads. */
    method LoadTable(buf: seq<byte>, reader: TableReader) returns (r: Result<()>)
      modifies this`pos
      ensures ReadTable(reader, buf, old(pos), constants).Ok? ==>
        r.Ok? && pos == ReadTable(reader, buf, old(pos), constants).value
      ensures ReadTable(reader, buf, old(pos), constants).Err? ==>
        r == Err(ReadTable(reader, buf, old(pos), constants).error)
    {
      var n :- reader(buf, pos, constants);
      if pos + n > |buf| {
        return Err(StructError);
      }
      pos := pos + n;
      return Ok(());
    }

    /** _load_from_buffer: the object ends up holding what Parse describes, or the same error is raised. */
    method LoadFromBuffer(buf: seq<byte>, t: Tables) returns (r: Result<()>)
      modifies this
      ensures r.Ok? <==> Parse(buf, t).Ok?
      ensures r.Ok? ==> Data() == Parse(buf, t).value
      ensures r.Err? ==> r.error == Parse(buf, t).error
    {
      pos := 0;
      var magic :- Src(buf, [U32]);
      if Items(magic)[0] != Int(Magic) {
        return Err(ClassError("invalid class file"));
      }
      r := LoadBody(buf, t);
    }

    /** _load_from_buffer after the magic number: the version, stored major first, then the pool and the rest. */
    method LoadBody(buf: seq<byte>, t: Tables) returns (r: Result<()>)
      modifies this
      ensures var spec := ParseBody(buf, old(pos), t);
        && (r.Ok? <==> spec.Ok?)
        && (r.Ok? ==> Data() == spec.value)
        && (r.Err? ==> r.error == spec.error)
    {
      var ver :- Src(buf, [U16, U16]);
      version := (Num(Items(ver)[1]), Num(Items(ver)[0]));
      var pool :- LoadConstantPool(buf);
      r := LoadHeader(buf, t);
    }

    /** The rest of _load_from_buffer after the pool: flags, this, super, interfaces, then the tables. */
    method LoadHeader(buf: seq<byte>, t: Tables) returns (r: Result<()>)
      modifies this`pos, this`flags, this`thisClass, this`superclass, this`interfaces
      ensures var spec := ParseHeader(buf, old(pos), version, constants, t);
        && (r.Ok? <==> spec.Ok?)
        && (r.Ok? ==> Data() == spec.value)
        && (r.Err? ==> r.error == spec.error)
    {
      var head :- Src(buf, [U16, U16, U16, U16]);
      var h := Items(head);
      flags := Num(h[0]);
      thisClass :- ClassName(constants, h[1]);
      superclass :- ClassName(constants, h[2]);
      interfaces :- Src(buf, Repeat(U16, Num(h[3])));
      r := LoadTables(buf, t);
    }

    /** FieldTable, MethodTable and AttributeTable, each handed src and the pool in turn. */
    method LoadTables(buf: seq<byte>, t: Tables) returns (r: Result<()>)
      modifies this`pos
      ensures var spec := ParseTables(buf, old(Data()), t);
        && (r.Ok? <==> spec.Ok?)
        && (r.Ok? ==> Data() == spec.value)
        && (r.Err? ==> r.error == spec.error)
    {
      var fields :- LoadTable(buf, t.fields);
      var methods :- LoadTable(buf, t.methods);
      var attributes :- LoadTable(buf, t.attributes);
      return Ok(());
    }
  }
}
