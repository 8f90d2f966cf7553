/**
 * The constant-pool decoder of ClassFile._load_constant_pool: tag-dispatched entries stored in
 * 1-based slots, Long and Double taking two slots, then one pass that resolves every
 * "*_index" field. The grammar is that of section 4.4 of the Java Virtual Machine Specification.
 */
module ConstantPool {
  import opened Wrappers
  import opened BigEndian
  import opened Struct

  /** A pool entry is the dictionary the decoder builds for it, keyed by field name. */
  type Entry = map<string, Value>

  /** The pool maps slot numbers to entries. */
  type Pool = map<int, Entry>

  // Tag values of Table 4.4-A of the Java Virtual Machine Specification.
  const TagUtf8 := 1
  const TagInteger := 3
  const TagFloat := 4
  const TagLong := 5
  const TagDouble := 6
  const TagClass := 7
  const TagString := 8
  const TagFieldref := 9
  const TagMethodref := 10
  const TagInterfaceMethodref := 11
  const TagNameAndType := 12

  /** The tags the decoder dispatches on. */
  predicate KnownTag(tag: int)
  {
    tag in {TagUtf8, TagInteger, TagFloat, TagLong, TagDouble, TagClass, TagString,
            TagFieldref, TagMethodref, TagInterfaceMethodref, TagNameAndType}
  }

  /** Long and Double entries take two slots (section 4.4.5 of the Java Virtual Machine Specification). */
  function Stride(tag: int): (n: int)
    ensures n == 2 <==> tag == TagLong || tag == TagDouble
    ensures n == 1 || n == 2
  {
    if tag in {TagLong, TagDouble} then 2 else 1
  }

  /** The fields of the entry following its tag byte, read from pos, and where they end; an unknown tag is a KeyError. */
  function ReadInfo(tag: int, buf: seq<byte>, pos: nat): (r: Result<(Entry, nat)>)
    ensures !KnownTag(tag) ==> r == Err(KeyError)
    ensures KnownTag(tag) && r.Err? ==> r.error == StructError
    ensures r.Ok? ==> pos + 2 <= r.value.1 <= |buf|
  {
    if tag == TagClass then
      var s :- Read([U16], buf, pos);
      Ok((map["name_index" := Items(s.value)[0]], s.next))
    else if tag in {TagFieldref, TagMethodref, TagInterfaceMethodref} then
      var s :- Read([U16, U16], buf, pos);
      Ok((map["class_index" := Items(s.value)[0], "name_and_type_index" := Items(s.value)[1]], s.next))
    else if tag == TagString then
      var s :- Read([U16], buf, pos);
      Ok((map["string_index" := Items(s.value)[0]], s.next))
    else if tag == TagInteger then
      var s :- Read([S32], buf, pos);
      Ok((map["value" := Items(s.value)[0]], s.next))
    else if tag == TagFloat then
      var s :- Read([F32], buf, pos);
      Ok((map["value" := Items(s.value)[0]], s.next))
    else if tag == TagLong then
      var s :- Read([S64], buf, pos);
      Ok((map["value" := Items(s.value)[0]], s.next))
    else if tag == TagDouble then
      var s :- Read([F64], buf, pos);
      Ok((map["value" := Items(s.value)[0]], s.next))
    else if tag == TagNameAndType then
      var s :- Read([U16, U16], buf, pos);
      Ok((map["name_index" := Items(s.value)[0], "descriptor_index" := Items(s.value)[1]], s.next))
    else if tag == TagUtf8 then
      ReadUtf8(buf, pos)
    else
      // constant_pool[x]["tag"] = tag on a slot the if-chain did not fill
      Err(KeyError)
  }

  /** A Utf8 entry: a 2-byte length, then exactly that many bytes as its value. */
  function ReadUtf8(buf: seq<byte>, pos: nat): (r: Result<(Entry, nat)>)
    ensures r.Err? ==> r.error == StructError
    ensures r.Ok? ==> pos + 2 <= r.value.1 <= |buf|
  {
    if pos + 2 > |buf| then Err(StructError)
    else
      var n := Decode(buf[pos..pos + 2]);
      if pos + 2 + n > |buf| then Err(StructError)
      else Ok((map["value" := Bytes(buf[pos + 2..pos + 2 + n])], pos + 2 + n))
  }

  /** ReadUtf8 is the source's two reads: the length with ">H", then that many bytes with ">%ss". */
  lemma ReadUtf8Reads(buf: seq<byte>, pos: nat)
    ensures ReadUtf8(buf, pos) ==
      var l :- Read([U16], buf, pos);
      var s :- Read([Str(Num(Items(l.value)[0]))], buf, l.next);
      Ok((map["value" := Items(s.value)[0]], s.next))
  {
    assert CalcSize([U16]) == 2 && forall n :: CalcSize([Str(n)]) == n;
    if pos + 2 <= |buf| {
      ReadItems([U16], buf, pos);
      var l := Read([U16], buf, pos).value;
      assert Items(l.value)[0] == Int(Decode(buf[pos..pos + 2])) by {
        assert [U16][..0] == [];
      }
      var f := [Str(Num(Items(l.value)[0]))];
      if l.next + CalcSize(f) <= |buf| {
        ReadItems(f, buf, l.next);
        assert f[..0] == [];
      }
    }
  }

  /**
   * The while loop of _load_constant_pool from slot x on: read a tag, read the entry, store it
   * with its tag at slot x and step x by the tag's stride, while x < count.
   */
  function ReadPool(buf: seq<byte>, pos: nat, x: int, count: int, pool: Pool): (r: Result<(Pool, nat)>)
    ensures r.Ok? ==> pos <= r.value.1 && (x < count ==> r.value.1 <= |buf|)
    ensures r.Err? ==> r.error in {StructError, KeyError}
    decreases count - x
  {
    if x >= count then Ok((pool, pos))
    else
      var t :- Read([U8], buf, pos);
      var tag := Num(Items(t.value)[0]);
      var info :- ReadInfo(tag, buf, t.next);
      ReadPool(buf, info.1, x + Stride(tag), count, pool[x := info.0["tag" := Int(tag)]])
  }

  /** A field name that the resolution pass resolves: one ending in "_index". */
  predicate IsIndexKey(k: string)
  {
    |k| >= 6 && k[|k| - 6..] == "_index"
  }

  /** k2[:-6]: the name the resolved reference is stored under. */
  function Alias(k: string): (a: string)
    requires IsIndexKey(k)
    ensures a + "_index" == k
  {
    assert k == k[..|k| - 6] + k[|k| - 6..];
    k[..|k| - 6]
  }

  lemma AliasOf(a: string)
    ensures IsIndexKey(a + "_index") && Alias(a + "_index") == a
  {
    assert (a + "_index")[|a|..] == "_index";
    assert (a + "_index")[..|a|] == a;
  }

  /** Whether constant_pool[v] finds an entry. */
  predicate Resolvable(pool: Pool, v: Value)
  {
    v.Int? && v.i in pool
  }

  /** The slot an index field names. */
  function Slot(v: Value): int
  {
    if v.Int? then v.i else 0
  }

  /** The aliases that resolving the index fields in done adds to e. */
  function Aliases(e: Entry, done: set<string>): set<string>
  {
    set k2 | k2 in done && k2 in e && IsIndexKey(k2) :: Alias(k2)
  }

  /** Entry e after the resolution pass has handled the fields in done. */
  function ResolvePartial(e: Entry, done: set<string>): Entry
  {
    map k | k in e.Keys + Aliases(e, done) ::
      if k + "_index" in done && k + "_index" in e then Ref(Slot(e[k + "_index"])) else e[k]
  }

  /** Entry e once every one of its fields has been through the resolution pass. */
  function ResolveEntry(e: Entry): Entry
  {
    ResolvePartial(e, e.Keys)
  }

  /** Whether field k2 of entry k is an index with no entry to resolve to. */
  predicate Dangling(pool: Pool, k: int, k2: string)
  {
    k in pool && k2 in pool[k] && IsIndexKey(k2) && !Resolvable(pool, pool[k][k2])
  }

  /**
   * The resolution pass over the complete pool. It fails with a KeyError exactly when some index
   * field names no stored slot; otherwise every entry keeps its fields and gains, for each
   * "x_index" field, a field "x" referring to the entry at that index, wherever in the pool it is.
   */
  function Resolve(pool: Pool): (r: Result<Pool>)
    ensures r.Ok? <==> forall k, k2 :: !Dangling(pool, k, k2)
    ensures r.Err? ==> r.error == KeyError
    ensures r.Ok? ==> r.value.Keys == pool.Keys
    ensures r.Ok? ==> forall k, k2 :: k in pool && k2 in pool[k] && IsIndexKey(k2) ==>
      Resolvable(pool, pool[k][k2]) && pool[k][k2].i in r.value &&
      Alias(k2) in r.value[k] && r.value[k][Alias(k2)] == Ref(pool[k][k2].i)
    ensures r.Ok? ==> forall k, f :: k in pool && f in pool[k] && f + "_index" !in pool[k] ==>
      f in r.value[k] && r.value[k][f] == pool[k][f]
    ensures r.Ok? ==> forall k, f :: k in pool && f in r.value[k] ==> f in pool[k] || f + "_index" in pool[k]
  {
    if exists k, k2 | k in pool && k2 in pool[k] :: Dangling(pool, k, k2) then Err(KeyError)
    else
      var res := map k | k in pool :: ResolveEntry(pool[k]);
      assert forall k, k2 :: k in pool && k2 in pool[k] && IsIndexKey(k2) ==>
        Resolvable(pool, pool[k][k2]) && Alias(k2) in res[k] && res[k][Alias(k2)] == Ref(pool[k][k2].i) by {
        forall k, k2 | k in pool && k2 in pool[k] && IsIndexKey(k2)
          ensures Resolvable(pool, pool[k][k2]) && Alias(k2) in res[k] && res[k][Alias(k2)] == Ref(pool[k][k2].i)
        {
          assert !Dangling(pool, k, k2);
          assert Alias(k2) in Aliases(pool[k], pool[k].Keys);
        }
      }
      assert forall k, f :: k in pool && f in res[k] ==> f in pool[k] || f + "_index" in pool[k] by {
        forall k, f | k in pool && f in res[k] ensures f in pool[k] || f + "_index" in pool[k] {
          if f !in pool[k] {
            var k2 :| k2 in pool[k] && IsIndexKey(k2) && Alias(k2) == f;
          }
        }
      }
      Ok(res)
  }

  lemma ResolvePartialEmpty(e: Entry)
    ensures ResolvePartial(e, {}) == e
  {
    assert ResolvePartial(e, {}).Keys == e.Keys;
  }

  /** Handling one more field: an index field adds (or overwrites) its alias, any other field changes nothing. */
  lemma ResolvePartialStep(e: Entry, done: set<string>, k2: string)
    requires done <= e.Keys && k2 in e && k2 !in done
    ensures IsIndexKey(k2) ==>
      ResolvePartial(e, done + {k2}) == ResolvePartial(e, done)[Alias(k2) := Ref(Slot(e[k2]))]
    ensures !IsIndexKey(k2) ==> ResolvePartial(e, done + {k2}) == ResolvePartial(e, done)
  {
    var before, after := ResolvePartial(e, done), ResolvePartial(e, done + {k2});
    forall k {:trigger k + "_index"} | k + "_index" == k2 ensures IsIndexKey(k2) && k == Alias(k2) {
      AliasOf(k);
    }
    if IsIndexKey(k2) {
      assert Aliases(e, done + {k2}) == Aliases(e, done) + {Alias(k2)};
      assert after == before[Alias(k2) := Ref(Slot(e[k2]))];
    } else {
      assert Aliases(e, done + {k2}) == Aliases(e, done);
      assert after == before;
    }
  }

  /**
   * The resolution loop of _load_constant_pool, run on the complete pool: for each entry, for each
   * field of a snapshot of that entry (Python 2's dict.items() is a list), an "x_index" field adds
   * "x" bound to the entry it names; an index naming no slot raises KeyError.
   */
  method ResolveIndices(pool: Pool) returns (r: Result<Pool>)
    ensures r == Resolve(pool)
  {
    var constantPool := pool;
    var outer := pool.Keys;
    while outer != {}
      invariant outer <= pool.Keys && constantPool.Keys == pool.Keys
      invariant forall k :: k in outer ==> constantPool[k] == pool[k]
      invariant forall k :: k in pool && k !in outer ==> constantPool[k] == ResolveEntry(pool[k])
      invariant forall k, k2 :: k in pool && k !in outer ==> !Dangling(pool, k, k2)
      decreases outer
    {
      // a witness that outer is not empty, for the choice below
      ghost var nonEmpty := PickOne(outer);
      var k :| k in outer;
      var e := ResolveFields(pool.Keys, constantPool[k]);
      if e.Err? {
        ghost var k2 :| k2 in pool[k] && IsIndexKey(k2) && !Resolvable(pool, pool[k][k2]);
        ResolveDangling(pool, k, k2);
        return Err(KeyError);
      }
      constantPool := constantPool[k := e.value];
      outer := outer - {k};
    }
    ResolveComplete(pool, constantPool);
    return Ok(constantPool);
  }

  /** The inner loop for one entry v: resolves its index fields against the pool's slots. */
  method ResolveFields(slots: set<int>, v: Entry) returns (r: Result<Entry>)
    ensures r.Ok? <==> forall k2 :: k2 in v && IsIndexKey(k2) ==> v[k2].Int? && v[k2].i in slots
    ensures r.Ok? ==> r.value == ResolveEntry(v)
    ensures r.Err? ==> r.error == KeyError
  {
    var entry := v;
    var inner := v.Keys;
    ResolvePartialEmpty(v);
    while inner != {}
      invariant inner <= v.Keys
      invariant entry == ResolvePartial(v, v.Keys - inner)
      invariant forall k2 :: k2 in v && k2 !in inner && IsIndexKey(k2) ==> v[k2].Int? && v[k2].i in slots
      decreases inner
    {
      // a witness that inner is not empty, for the choice below
      ghost var nonEmpty := PickOne(inner);
      var k2 :| k2 in inner;
      ResolvePartialStep(v, v.Keys - inner, k2);
      assert v.Keys - inner + {k2} == v.Keys - (inner - {k2});
      if IsIndexKey(k2) {
        var v2 := v[k2];
        if !(v2.Int? && v2.i in slots) {
          return Err(KeyError);
        }
        entry := entry[Alias(k2) := Ref(v2.i)];
      }
      inner := inner - {k2};
    }
    assert v.Keys - inner == v.Keys;
    return Ok(entry);
  }

  lemma ResolveDangling(pool: Pool, k: int, k2: string)
    requires Dangling(pool, k, k2)
    ensures Resolve(pool) == Err(KeyError)
  {
  }

  lemma ResolveComplete(pool: Pool, res: Pool)
    requires forall k, k2 :: !Dangling(pool, k, k2)
    requires res.Keys == pool.Keys && forall k :: k in pool ==> res[k] == ResolveEntry(pool[k])
    ensures Resolve(pool) == Ok(res)
  {
    assert !exists k, k2 | k in pool && k2 in pool[k] :: Dangling(pool, k, k2);
    var m := map k | k in pool :: ResolveEntry(pool[k]);
    assert m.Keys == res.Keys;
    assert forall k :: k in m ==> m[k] == res[k];
    assert res == m;
  }

  lemma PickOne<T>(s: set<T>) returns (x: T)
    requires s != {}
    ensures x in s
  {
    x :| x in s;
  }

  /** constants[index]["name"]["value"]: the name string of the Class entry at slot index. */
  function ClassName(pool: Pool, index: Value): Result<Value>
  {
    if !Resolvable(pool, index) then Err(KeyError)
    else
      var e := pool[index.i];
      if "name" !in e then Err(KeyError)
      else match e["name"]
        case Ref(s) => if s in pool && "value" in pool[s] then Ok(pool[s]["value"]) else Err(KeyError)
        case _ => Err(TypeError)
  }

  /** Whether an entry is a Long or a Double, the entries that take two slots. */
  predicate Wide(e: Entry)
  {
    "tag" in e && (e["tag"] == Int(TagLong) || e["tag"] == Int(TagDouble))
  }

  /**
   * The slot numbering of a pool read with count: nothing at slot 0 or at count and beyond, and
   * each slot in between holds an entry exactly when the slot before it does not hold a Long or Double.
   */
  ghost predicate SlotsNumbered(p: Pool, count: int)
  {
    && (forall k :: k in p ==> 1 <= k < count)
    && (forall k :: 1 <= k < count ==> (k in p <==> !(k - 1 in p && Wide(p[k - 1]))))
  }

  /** Every stored entry carries the tag it was read with, one of the known tags. */
  ghost predicate Tagged(p: Pool)
  {
    forall k :: k in p ==> "tag" in p[k] && p[k]["tag"].Int? && KnownTag(p[k]["tag"].i)
  }

  lemma {:induction false} ReadPoolShape(buf: seq<byte>, pos: nat, x: int, count: int, pool: Pool)
    requires ReadPool(buf, pos, x, count, pool).Ok?
    requires 1 <= x
    requires forall k :: k in pool ==> 1 <= k < x && k < count
    requires forall k :: 1 <= k < x && k < count ==> (k in pool <==> !(k - 1 in pool && Wide(pool[k - 1])))
    requires !(x - 1 in pool && Wide(pool[x - 1]))
    requires Tagged(pool)
    ensures SlotsNumbered(ReadPool(buf, pos, x, count, pool).value.0, count)
    ensures Tagged(ReadPool(buf, pos, x, count, pool).value.0)
    decreases count - x
  {
    if x < count {
      var t := Read([U8], buf, pos).value;
      var tag := Num(Items(t.value)[0]);
      var info := ReadInfo(tag, buf, t.next).value;
      var e := info.0["tag" := Int(tag)];
      var x2, pool2 := x + Stride(tag), pool[x := e];
      ReadPoolTurn(buf, pos, x, count, pool, t, tag, info, x2, pool2);
      ShapeStep(pool, x, count, tag, e, x2, pool2);
      ReadPoolShape(buf, info.1, x2, count, pool2);
    }
  }

  /** Storing one more entry at slot x keeps the numbering invariant of ReadPoolShape. */
  lemma ShapeStep(pool: Pool, x: int, count: int, tag: int, e: Entry, y: int, p: Pool)
    requires 1 <= x < count && KnownTag(tag) && "tag" in e && e["tag"] == Int(tag)
    requires y == x + Stride(tag) && p == pool[x := e]
    requires forall k :: k in pool ==> 1 <= k < x && k < count
    requires forall k :: 1 <= k < x && k < count ==> (k in pool <==> !(k - 1 in pool && Wide(pool[k - 1])))
    requires !(x - 1 in pool && Wide(pool[x - 1]))
    requires Tagged(pool)
    ensures && (forall k :: k in p ==> 1 <= k < y && k < count)
      && (forall k :: 1 <= k < y && k < count ==> (k in p <==> !(k - 1 in p && Wide(p[k - 1]))))
      && !(y - 1 in p && Wide(p[y - 1]))
      && Tagged(p)
  {
    assert Wide(e) <==> Stride(tag) == 2;
  }

  /** Slot numbering and tags of every pool the decoder reads. */
  lemma PoolSlots(buf: seq<byte>, pos: nat, count: int)
    requires ReadPool(buf, pos, 1, count, map[]).Ok?
    ensures SlotsNumbered(ReadPool(buf, pos, 1, count, map[]).value.0, count)
    ensures Tagged(ReadPool(buf, pos, 1, count, map[]).value.0)
  {
    ReadPoolShape(buf, pos, 1, count, map[]);
  }

  /**
   * The second slot of a Long or Double is never filled, so an index naming it has nothing to
   * resolve to and the resolution pass raises KeyError.
   */
  lemma SkippedSlotUnresolvable(buf: seq<byte>, pos: nat, count: int, x: int, k: int, k2: string)
    requires ReadPool(buf, pos, 1, count, map[]).Ok?
    requires var p := ReadPool(buf, pos, 1, count, map[]).value.0;
      x in p && Wide(p[x]) && k in p && k2 in p[k] && IsIndexKey(k2) && p[k][k2] == Int(x + 1)
    ensures x + 1 !in ReadPool(buf, pos, 1, count, map[]).value.0
    ensures Resolve(ReadPool(buf, pos, 1, count, map[]).value.0) == Err(KeyError)
  {
    var p := ReadPool(buf, pos, 1, count, map[]).value.0;
    PoolSlots(buf, pos, count);
    assert x + 1 !in p;
    assert Dangling(p, k, k2);
  }

  lemma DecodeAtPrefix(c: Code, buf: seq<byte>, off: nat, k: nat)
    requires off + Size(c) <= k <= |buf|
    ensures DecodeAt(c, buf[..k], off) == DecodeAt(c, buf, off)
  {
    assert buf[..k][off..off + Size(c)] == buf[off..off + Size(c)];
  }

  lemma {:induction false} ValuesPrefix(fmt: Format, buf: seq<byte>, off: nat, k: nat)
    requires off + CalcSize(fmt) <= k <= |buf|
    ensures Values(fmt, buf[..k], off) == Values(fmt, buf, off)
    decreases |fmt|
  {
    if fmt != [] {
      DecodeAtPrefix(fmt[0], buf, off, k);
      ValuesPrefix(fmt[1..], buf, off + Size(fmt[0]), k);
    }
  }

  /** A read that succeeds on a buffer reads the same from any prefix holding its bytes, and fails on a shorter one. */
  lemma ReadPrefix(fmt: Format, buf: seq<byte>, pos: nat, k: nat)
    requires Read(fmt, buf, pos).Ok? && k <= |buf|
    ensures Read(fmt, buf[..k], pos) ==
      if Read(fmt, buf, pos).value.next <= k then Read(fmt, buf, pos) else Err(StructError)
  {
    if pos + CalcSize(fmt) <= k {
      ValuesPrefix(fmt, buf, pos, k);
    }
  }

  lemma ReadInfoPrefix(tag: int, buf: seq<byte>, pos: nat, k: nat)
    requires ReadInfo(tag, buf, pos).Ok? && k <= |buf|
    ensures ReadInfo(tag, buf[..k], pos) ==
      if ReadInfo(tag, buf, pos).value.1 <= k then ReadInfo(tag, buf, pos) else Err(StructError)
  {
    if tag == TagClass || tag == TagString {
      ReadPrefix([U16], buf, pos, k);
    } else if tag in {TagFieldref, TagMethodref, TagInterfaceMethodref, TagNameAndType} {
      ReadPrefix([U16, U16], buf, pos, k);
    } else if tag == TagInteger {
      ReadPrefix([S32], buf, pos, k);
    } else if tag == TagFloat {
      ReadPrefix([F32], buf, pos, k);
    } else if tag == TagLong {
      ReadPrefix([S64], buf, pos, k);
    } else if tag == TagDouble {
      ReadPrefix([F64], buf, pos, k);
    } else {
      if pos + 2 <= k {
        assert buf[..k][pos..pos + 2] == buf[pos..pos + 2];
        var e := ReadInfo(tag, buf, pos).value.1;
        if e <= k {
          assert buf[..k][pos + 2..e] == buf[pos + 2..e];
        }
      }
    }
  }

  /**
   * Truncation: a pool that decodes from buf ending at end decodes identically from any prefix
   * holding it, and from any prefix cut before end the decoder fails with struct.error.
   */
  lemma {:induction false} ReadPoolPrefix(buf: seq<byte>, pos: nat, x: int, count: int, pool: Pool, k: nat)
    requires ReadPool(buf, pos, x, count, pool).Ok? && pos <= k <= |buf|
    ensures ReadPool(buf[..k], pos, x, count, pool) ==
      if ReadPool(buf, pos, x, count, pool).value.1 <= k then ReadPool(buf, pos, x, count, pool) else Err(StructError)
    decreases count - x
  {
    if x < count {
      if Read([U8], buf, pos).Err? {
        ReadPoolTagFails(buf, pos, x, count, pool);
        assert false;
      }
      var t := Read([U8], buf, pos).value;
      var tag := Num(Items(t.value)[0]);
      ReadPrefix([U8], buf, pos, k);
      if t.next <= k {
        if ReadInfo(tag, buf, t.next).Err? {
          ReadPoolInfoFails(buf, pos, x, count, pool, t, tag);
          assert false;
        }
        var info := ReadInfo(tag, buf, t.next).value;
        var x2, pool2 := x + Stride(tag), pool[x := info.0["tag" := Int(tag)]];
        ReadPoolTurn(buf, pos, x, count, pool, t, tag, info, x2, pool2);
        ReadInfoPrefix(tag, buf, t.next, k);
        if info.1 <= k {
          ReadPoolTurn(buf[..k], pos, x, count, pool, t, tag, info, x2, pool2);
          ReadPoolPrefix(buf, info.1, x2, count, pool2, k);
        } else {
          ReadPoolInfoFails(buf[..k], pos, x, count, pool, t, tag);
        }
      } else {
        ReadPoolTagFails(buf[..k], pos, x, count, pool);
      }
    }
  }

  /** A constant-pool entry as section 4.4 of the Java Virtual Machine Specification describes it. */
  datatype Constant =
    | Utf8Info(bytes: seq<byte>)
    | IntegerInfo(value: int)
    | FloatInfo(bits: seq<byte>)
    | LongInfo(value: int)
    | DoubleInfo(bits: seq<byte>)
    | ClassInfo(nameIndex: int)
    | StringInfo(stringIndex: int)
    | FieldrefInfo(classIndex: int, nameAndTypeIndex: int)
    | MethodrefInfo(classIndex: int, nameAndTypeIndex: int)
    | InterfaceMethodrefInfo(classIndex: int, nameAndTypeIndex: int)
    | NameAndTypeInfo(nameIndex: int, descriptorIndex: int)

  function TagOf(c: Constant): int
  {
    match c
    case Utf8Info(_) => TagUtf8
    case IntegerInfo(_) => TagInteger
    case FloatInfo(_) => TagFloat
    case LongInfo(_) => TagLong
    case DoubleInfo(_) => TagDouble
    case ClassInfo(_) => TagClass
    case StringInfo(_) => TagString
    case FieldrefInfo(_, _) => TagFieldref
    case MethodrefInfo(_, _) => TagMethodref
    case InterfaceMethodrefInfo(_, _) => TagInterfaceMethodref
    case NameAndTypeInfo(_, _) => TagNameAndType
  }

  /** The codes that follow the tag byte in the class file, and the values they carry. */
  function Body(c: Constant): (Format, seq<Value>)
  {
    match c
    case Utf8Info(b) => ([U16, Str(|b|)], [Int(|b|), Bytes(b)])
    case IntegerInfo(v) => ([S32], [Int(v)])
    case FloatInfo(bits) => ([F32], [Opaque(bits)])
    case LongInfo(v) => ([S64], [Int(v)])
    case DoubleInfo(bits) => ([F64], [Opaque(bits)])
    case ClassInfo(n) => ([U16], [Int(n)])
    case StringInfo(n) => ([U16], [Int(n)])
    case FieldrefInfo(a, b) => ([U16, U16], [Int(a), Int(b)])
    case MethodrefInfo(a, b) => ([U16, U16], [Int(a), Int(b)])
    case InterfaceMethodrefInfo(a, b) => ([U16, U16], [Int(a), Int(b)])
    case NameAndTypeInfo(a, b) => ([U16, U16], [Int(a), Int(b)])
  }

  /** Every field is in its range: indices and lengths in 16 bits, the numbers in their widths. */
  predicate WellFormed(c: Constant)
  {
    match c
    case Utf8Info(b) => |b| < 0x1_0000
    case IntegerInfo(v) => -0x8000_0000 <= v < 0x8000_0000
    case FloatInfo(bits) => |bits| == 4
    case LongInfo(v) => -0x8000_0000_0000_0000 <= v < 0x8000_0000_0000_0000
    case DoubleInfo(bits) => |bits| == 8
    case ClassInfo(n) => 0 <= n < 0x1_0000
    case StringInfo(n) => 0 <= n < 0x1_0000
    case FieldrefInfo(a, b) => 0 <= a < 0x1_0000 && 0 <= b < 0x1_0000
    case MethodrefInfo(a, b) => 0 <= a < 0x1_0000 && 0 <= b < 0x1_0000
    case InterfaceMethodrefInfo(a, b) => 0 <= a < 0x1_0000 && 0 <= b < 0x1_0000
    case NameAndTypeInfo(a, b) => 0 <= a < 0x1_0000 && 0 <= b < 0x1_0000
  }

  /** A well-formed constant's fields fit the codes they are packed with. */
  lemma WellFormedFits(c: Constant)
    requires WellFormed(c)
    ensures FitsAll(Body(c).0, Body(c).1)
  {
    assert Pow256(2) == 0x1_0000 && Half(4) == 0x8000_0000 && Half(8) == 0x8000_0000_0000_0000;
  }

  /** The bytes of one constant in the class file: its tag, then its fields. */
  function Serialize(c: Constant): (r: seq<byte>)
    requires WellFormed(c)
  {
    WellFormedFits(c);
    [TagOf(c)] + Pack(Body(c).0, Body(c).1)
  }

  /** The fields the decoder reads for a constant, before it adds the tag. */
  function Info(c: Constant): Entry
  {
    match c
    case Utf8Info(b) => map["value" := Bytes(b)]
    case IntegerInfo(v) => map["value" := Int(v)]
    case FloatInfo(bits) => map["value" := Opaque(bits)]
    case LongInfo(v) => map["value" := Int(v)]
    case DoubleInfo(bits) => map["value" := Opaque(bits)]
    case ClassInfo(n) => map["name_index" := Int(n)]
    case StringInfo(n) => map["string_index" := Int(n)]
    case FieldrefInfo(a, b) => map["class_index" := Int(a), "name_and_type_index" := Int(b)]
    case MethodrefInfo(a, b) => map["class_index" := Int(a), "name_and_type_index" := Int(b)]
    case InterfaceMethodrefInfo(a, b) => map["class_index" := Int(a), "name_and_type_index" := Int(b)]
    case NameAndTypeInfo(a, b) => map["name_index" := Int(a), "descriptor_index" := Int(b)]
  }

  /** The dictionary the decoder is expected to build for a constant, before resolution. */
  function EntryOf(c: Constant): Entry
  {
    Info(c)["tag" := Int(TagOf(c))]
  }

  /** One turn of the decoder's loop: the tag read as t, its fields as info, then the rest of the loop. */
  lemma ReadPoolTurn(buf: seq<byte>, pos: nat, x: int, count: int, pool: Pool, t: Step, tag: int,
                     info: (Entry, nat), x2: int, pool2: Pool)
    requires x < count && Read([U8], buf, pos) == Ok(t) && tag == Num(Items(t.value)[0])
    requires ReadInfo(tag, buf, t.next) == Ok(info)
    requires x2 == x + Stride(tag) && pool2 == pool[x := info.0["tag" := Int(tag)]]
    ensures ReadPool(buf, pos, x, count, pool) == ReadPool(buf, info.1, x2, count, pool2)
  {
  }

  /** The loop raises struct.error when the bytes end where a tag should be. */
  lemma ReadPoolTagFails(buf: seq<byte>, pos: nat, x: int, count: int, pool: Pool)
    requires x < count && Read([U8], buf, pos).Err?
    ensures ReadPool(buf, pos, x, count, pool) == Err(StructError)
  {
  }

  /** The loop raises whatever reading the fields after the tag raises. */
  lemma ReadPoolInfoFails(buf: seq<byte>, pos: nat, x: int, count: int, pool: Pool, t: Step, tag: int)
    requires x < count && Read([U8], buf, pos) == Ok(t) && tag == Num(Items(t.value)[0])
    requires ReadInfo(tag, buf, t.next).Err?
    ensures ReadPool(buf, pos, x, count, pool) == Err(ReadInfo(tag, buf, t.next).error)
  {
  }

  /** The bytes of a + b between pos and end hold a up to mid and b after it. */
  lemma SplitAt(buf: seq<byte>, pos: nat, mid: nat, end: nat, a: seq<byte>, b: seq<byte>)
    requires mid == pos + |a| && end == mid + |b| && end <= |buf| && buf[pos..end] == a + b
    ensures buf[pos..mid] == a && buf[mid..end] == b
  {
    assert buf[pos..mid] == buf[pos..end][..|a|];
    assert buf[mid..end] == buf[pos..end][|a|..];
  }

  /** Reading a serialized constant yields its tag and then its fields, consuming exactly its bytes. */
  lemma ReadConstant(c: Constant, buf: seq<byte>, pos: nat, p1: nat, end: nat)
    requires WellFormed(c)
    requires p1 == pos + 1 && end == pos + |Serialize(c)| && end <= |buf| && buf[pos..end] == Serialize(c)
    ensures Read([U8], buf, pos) == Ok(Step(Scalar(Int(TagOf(c))), p1))
    ensures ReadInfo(TagOf(c), buf, p1) == Ok((Info(c), end))
  {
    WellFormedFits(c);
    var body := Pack(Body(c).0, Body(c).1);
    SplitAt(buf, pos, p1, end, [TagOf(c)], body);
    assert Pack([U8], [Int(TagOf(c))]) == [TagOf(c)];
    ReadPacked([U8], [Int(TagOf(c))], buf, pos, p1);
    if c.Utf8Info? {
      var b := c.bytes;
      assert Pack([Str(|b|)], [Bytes(b)]) == b + [];
      assert body == Encode(|b|, 2) + b;
      ReadUtf8Serialized(b, buf, p1, end);
    } else {
      ReadBodySerialized(c, buf, p1, end);
    }
  }

  lemma ReadUtf8Serialized(b: seq<byte>, buf: seq<byte>, pos: nat, end: nat)
    requires |b| < 0x1_0000
    requires end == pos + 2 + |b| && end <= |buf| && buf[pos..end] == Encode(|b|, 2) + b
    ensures ReadInfo(TagUtf8, buf, pos) == Ok((map["value" := Bytes(b)], end))
  {
    Utf8Layout(b, buf, pos, end);
    ReadInfoUtf8(buf, pos);
    assert ReadUtf8(buf, pos) == Ok((map["value" := Bytes(b)], end));
  }

  lemma ReadInfoUtf8(buf: seq<byte>, pos: nat)
    ensures ReadInfo(TagUtf8, buf, pos) == ReadUtf8(buf, pos)
  {
  }

  /** The length prefix of a serialized Utf8 constant decodes to the length of the bytes after it. */
  lemma Utf8Layout(b: seq<byte>, buf: seq<byte>, pos: nat, end: nat)
    requires |b| < 0x1_0000
    requires end == pos + 2 + |b| && end <= |buf| && buf[pos..end] == Encode(|b|, 2) + b
    ensures Decode(buf[pos..pos + 2]) == |b| && buf[pos + 2..end] == b
  {
    var mid := pos + 2;
    SplitAt(buf, pos, mid, end, Encode(|b|, 2), b);
    DecodeEncode(|b|, 2);
  }

  lemma ReadBodySerialized(c: Constant, buf: seq<byte>, pos: nat, end: nat)
    requires WellFormed(c) && !c.Utf8Info?
    requires end == pos + CalcSize(Body(c).0) && end <= |buf|
    requires buf[pos..end] == Pack(Body(c).0, Body(c).1)
    ensures ReadInfo(TagOf(c), buf, pos) == Ok((Info(c), end))
  {
    if c.IntegerInfo? || c.LongInfo? {
      ReadNumberSerialized(c, buf, pos, end);
    } else if c.FloatInfo? || c.DoubleInfo? {
      ReadFloatSerialized(c, buf, pos, end);
    } else if c.ClassInfo? || c.StringInfo? {
      ReadIndexSerialized(c, buf, pos, end);
    } else {
      ReadPairSerialized(c, buf, pos, end);
    }
  }

  lemma ReadNumberSerialized(c: Constant, buf: seq<byte>, pos: nat, end: nat)
    requires WellFormed(c) && (c.IntegerInfo? || c.LongInfo?)
    requires end == pos + CalcSize(Body(c).0) && end <= |buf|
    requires buf[pos..end] == Pack(Body(c).0, Body(c).1)
    ensures ReadInfo(TagOf(c), buf, pos) == Ok((Info(c), end))
  {
    match c
    case IntegerInfo(v) =>
      ReadPacked([S32], [Int(v)], buf, pos, end);
      assert ReadInfo(TagInteger, buf, pos) == Ok((map["value" := Int(v)], end));
    case LongInfo(v) =>
      ReadPacked([S64], [Int(v)], buf, pos, end);
      assert ReadInfo(TagLong, buf, pos) == Ok((map["value" := Int(v)], end));
  }

  lemma ReadFloatSerialized(c: Constant, buf: seq<byte>, pos: nat, end: nat)
    requires WellFormed(c) && (c.FloatInfo? || c.DoubleInfo?)
    requires end == pos + CalcSize(Body(c).0) && end <= |buf|
    requires buf[pos..end] == Pack(Body(c).0, Body(c).1)
    ensures ReadInfo(TagOf(c), buf, pos) == Ok((Info(c), end))
  {
    match c
    case FloatInfo(bits) =>
      ReadPacked([F32], [Opaque(bits)], buf, pos, end);
      assert ReadInfo(TagFloat, buf, pos) == Ok((map["value" := Opaque(bits)], end));
    case DoubleInfo(bits) =>
      ReadPacked([F64], [Opaque(bits)], buf, pos, end);
      assert ReadInfo(TagDouble, buf, pos) == Ok((map["value" := Opaque(bits)], end));
  }

  lemma ReadIndexSerialized(c: Constant, buf: seq<byte>, pos: nat, end: nat)
    requires WellFormed(c) && (c.ClassInfo? || c.StringInfo?)
    requires end == pos + CalcSize(Body(c).0) && end <= |buf|
    requires buf[pos..end] == Pack(Body(c).0, Body(c).1)
    ensures ReadInfo(TagOf(c), buf, pos) == Ok((Info(c), end))
  {
    match c
    case ClassInfo(n) =>
      ReadPacked([U16], [Int(n)], buf, pos, end);
      assert ReadInfo(TagClass, buf, pos) == Ok((map["name_index" := Int(n)], end));
    case StringInfo(n) =>
      ReadPacked([U16], [Int(n)], buf, pos, end);
      assert ReadInfo(TagString, buf, pos) == Ok((map["string_index" := Int(n)], end));
  }

  lemma ReadPairSerialized(c: Constant, buf: seq<byte>, pos: nat, end: nat)
    requires WellFormed(c) && (c.FieldrefInfo? || c.MethodrefInfo? || c.InterfaceMethodrefInfo? || c.NameAndTypeInfo?)
    requires end == pos + CalcSize(Body(c).0) && end <= |buf|
    requires buf[pos..end] == Pack(Body(c).0, Body(c).1)
    ensures ReadInfo(TagOf(c), buf, pos) == Ok((Info(c), end))
  {
    CalcSizeSmall(U16, U16);
    match c
    case FieldrefInfo(a, b) =>
      ReadPacked([U16, U16], [Int(a), Int(b)], buf, pos, end);
      assert ReadInfo(TagFieldref, buf, pos) == Ok((map["class_index" := Int(a), "name_and_type_index" := Int(b)], end));
    case MethodrefInfo(a, b) =>
      ReadPacked([U16, U16], [Int(a), Int(b)], buf, pos, end);
      assert ReadInfo(TagMethodref, buf, pos) == Ok((map["class_index" := Int(a), "name_and_type_index" := Int(b)], end));
    case InterfaceMethodrefInfo(a, b) =>
      ReadPacked([U16, U16], [Int(a), Int(b)], buf, pos, end);
      assert ReadInfo(TagInterfaceMethodref, buf, pos) == Ok((map["class_index" := Int(a), "name_and_type_index" := Int(b)], end));
    case NameAndTypeInfo(a, b) =>
      ReadPacked([U16, U16], [Int(a), Int(b)], buf, pos, end);
      assert ReadInfo(TagNameAndType, buf, pos) == Ok((map["name_index" := Int(a), "descriptor_index" := Int(b)], end));
  }

  /** Every constant of the sequence is well formed. */
  predicate AllWellFormed(cs: seq<Constant>)
  {
    cs == [] || (WellFormed(cs[0]) && AllWellFormed(cs[1..]))
  }

  /** The bytes of a sequence of constants, one after another. */
  function SerializePool(cs: seq<Constant>): seq<byte>
    requires AllWellFormed(cs)
  {
    if cs == [] then [] else Serialize(cs[0]) + SerializePool(cs[1..])
  }

  /** The number of slots a sequence of constants takes: two for each Long or Double, one for the others. */
  function SlotCount(cs: seq<Constant>): nat
  {
    if cs == [] then 0 else Stride(TagOf(cs[0])) + SlotCount(cs[1..])
  }

  /** The reference numbering: constants placed in consecutive slots from x, each taking its stride. */
  function Slots(cs: seq<Constant>, x: int): (p: Pool)
    ensures forall k :: k in p ==> x <= k < x + SlotCount(cs)
    decreases |cs|
  {
    if cs == [] then map[]
    else Slots(cs[1..], x + Stride(TagOf(cs[0])))[x := EntryOf(cs[0])]
  }

  /** The buffer holds the serialized constants one after another from pos. */
  predicate Holds(buf: seq<byte>, pos: nat, cs: seq<Constant>)
    requires AllWellFormed(cs)
    decreases |cs|
  {
    cs == [] ||
    var next := pos + |Serialize(cs[0])|;
    next <= |buf| && buf[pos..next] == Serialize(cs[0]) && Holds(buf, next, cs[1..])
  }

  lemma {:induction false} HoldsSerialized(buf: seq<byte>, pos: nat, end: nat, cs: seq<Constant>)
    requires AllWellFormed(cs)
    requires end == pos + |SerializePool(cs)| && end <= |buf| && buf[pos..end] == SerializePool(cs)
    ensures Holds(buf, pos, cs)
    decreases |cs|
  {
    if cs != [] {
      var a, b := Serialize(cs[0]), SerializePool(cs[1..]);
      assert SerializePool(cs) == a + b;
      var mid := pos + |a|;
      assert end == mid + |b|;
      SplitAt(buf, pos, mid, end, a, b);
      HoldsSerialized(buf, mid, end, cs[1..]);
      assert Holds(buf, mid, cs[1..]);
    }
  }

  /**
   * Round trip of the pool decoder: the serialized constants, wherever they sit in the buffer,
   * decode to the entries of the reference numbering, and the cursor ends right after them.
   */
  lemma {:induction false} ReadPoolSerialized(cs: seq<Constant>, buf: seq<byte>, pos: nat, end: nat,
                                              x: int, count: int, pool: Pool)
    requires AllWellFormed(cs)
    requires end == pos + |SerializePool(cs)| && end <= |buf| && buf[pos..end] == SerializePool(cs)
    requires forall k :: k in pool ==> k < x
    requires count == x + SlotCount(cs)
    ensures ReadPool(buf, pos, x, count, pool) == Ok((pool + Slots(cs, x), end))
  {
    assert Holds(buf, pos, cs) by {
      HoldsSerialized(buf, pos, end, cs);
    }
    ReadPoolHolds(cs, buf, pos, x, count, pool, end);
  }

  lemma {:induction false} ReadPoolHolds(cs: seq<Constant>, buf: seq<byte>, pos: nat, x: int, count: int, pool: Pool, end: nat)
    requires AllWellFormed(cs) && Holds(buf, pos, cs)
    requires forall k :: k in pool ==> k < x
    requires count == x + SlotCount(cs) && end == pos + |SerializePool(cs)|
    ensures ReadPool(buf, pos, x, count, pool) == Ok((pool + Slots(cs, x), end))
    decreases |cs|
  {
    if cs == [] {
      assert pool + map[] == pool;
    } else {
      // the cursor, slot and pool after the first constant, passed as the same variables to every step
      var p2: nat, x2, pool2 := pos + |Serialize(cs[0])|, x + Stride(TagOf(cs[0])), pool[x := EntryOf(cs[0])];
      assert AllWellFormed(cs[1..]);
      assert Holds(buf, p2, cs[1..]);
      assert forall k :: k in pool2 ==> k < x2;
      assert count == x2 + SlotCount(cs[1..]);
      assert end == p2 + |SerializePool(cs[1..])|;
      ReadPoolHolds(cs[1..], buf, p2, x2, count, pool2, end);
      ReadPoolConstant(cs[0], buf, pos, x, count, pool, p2, x2, pool2);
      ReadPoolCons(cs, x, pool, x2, pool2, end, ReadPool(buf, pos, x, count, pool));
    }
  }

  /** The result of the rest of the loop, with the first constant stored, is the result from x on. */
  lemma ReadPoolCons(cs: seq<Constant>, x: int, pool: Pool, x': int, pool': Pool, end: nat, r: Result<(Pool, nat)>)
    requires cs != [] && x' == x + Stride(TagOf(cs[0])) && pool' == pool[x := EntryOf(cs[0])]
    requires forall k :: k in pool ==> k < x
    requires r == Ok((pool' + Slots(cs[1..], x'), end))
    ensures r == Ok((pool + Slots(cs, x), end))
  {
    SlotsCons(cs, x, pool);
  }

  /** One turn of the decoder's loop over a serialized constant. */
  lemma ReadPoolConstant(c: Constant, buf: seq<byte>, pos: nat, x: int, count: int, pool: Pool,
                         p2: nat, x2: int, pool2: Pool)
    requires x < count && WellFormed(c)
    requires p2 == pos + |Serialize(c)| && p2 <= |buf| && buf[pos..p2] == Serialize(c)
    requires x2 == x + Stride(TagOf(c)) && pool2 == pool[x := EntryOf(c)]
    ensures ReadPool(buf, pos, x, count, pool) == ReadPool(buf, p2, x2, count, pool2)
  {
    var p1 := pos + 1;
    ReadConstant(c, buf, pos, p1, p2);
    var t := Step(Scalar(Int(TagOf(c))), p1);
    assert Num(Items(t.value)[0]) == TagOf(c);
    ReadPoolTurn(buf, pos, x, count, pool, t, TagOf(c), (Info(c), p2), x2, pool2);
  }

  lemma SlotsCons(cs: seq<Constant>, x: int, pool: Pool)
    requires cs != []
    requires forall k :: k in pool ==> k < x
    ensures pool[x := EntryOf(cs[0])] + Slots(cs[1..], x + Stride(TagOf(cs[0]))) == pool + Slots(cs, x)
  {
    var rest := Slots(cs[1..], x + Stride(TagOf(cs[0])));
    assert x !in rest;
  }

  /** The pool decoder applied to serialized constants from slot 1, as the class file stores them. */
  lemma PoolRoundTrip(cs: seq<Constant>, rest: seq<byte>)
    requires AllWellFormed(cs)
    ensures ReadPool(SerializePool(cs) + rest, 0, 1, 1 + SlotCount(cs), map[]) ==
      Ok((Slots(cs, 1), |SerializePool(cs)|))
  {
    var buf, end := SerializePool(cs) + rest, |SerializePool(cs)|;
    assert buf[0..end] == SerializePool(cs);
    ReadPoolSerialized(cs, buf, 0, end, 1, 1 + SlotCount(cs), map[]);
    assert map[] + Slots(cs, 1) == Slots(cs, 1);
  }

  /** The field names an entry's fields are read under, besides its tag. */
  const FieldNames: set<string> :=
    {"name_index", "class_index", "name_and_type_index", "string_index", "descriptor_index", "value"}

  /** Every entry holds only its tag and the fields of FieldNames. */
  ghost predicate Fielded(p: Pool)
  {
    forall k :: k in p ==> p[k].Keys <= FieldNames + {"tag"}
  }

  lemma ReadInfoFields(tag: int, buf: seq<byte>, pos: nat)
    requires ReadInfo(tag, buf, pos).Ok?
    ensures ReadInfo(tag, buf, pos).value.0.Keys <= FieldNames
  {
  }

  /** The decoder stores no field outside FieldNames besides the tag. */
  lemma {:induction false} ReadPoolFields(buf: seq<byte>, pos: nat, x: int, count: int, pool: Pool)
    requires ReadPool(buf, pos, x, count, pool).Ok? && Fielded(pool)
    ensures Fielded(ReadPool(buf, pos, x, count, pool).value.0)
    decreases count - x
  {
    if x < count {
      var t := Read([U8], buf, pos).value;
      var tag := Num(Items(t.value)[0]);
      var info := ReadInfo(tag, buf, t.next).value;
      ReadInfoFields(tag, buf, t.next);
      var x2, pool2 := x + Stride(tag), pool[x := info.0["tag" := Int(tag)]];
      ReadPoolTurn(buf, pos, x, count, pool, t, tag, info, x2, pool2);
      ReadPoolFields(buf, info.1, x2, count, pool2);
    }
  }

  /** Neither "name" nor "value_index" is a field the decoder reads. */
  lemma NotFields()
    ensures "name" !in FieldNames + {"tag"} && "value_index" !in FieldNames + {"tag"}
  {
  }

  lemma Suffixed()
    ensures "value" + "_index" == "value_index" && "name" + "_index" == "name_index"
  {
  }

  /** Entry k of a resolved pool: an index field k2 of the entry as read resolves under Alias(k2). */
  lemma ResolvedIndex(raw: Pool, pool: Pool, k: int, k2: string)
    requires Resolve(raw) == Ok(pool) && k in raw && k2 in raw[k] && IsIndexKey(k2)
    ensures Resolvable(raw, raw[k][k2]) && k in pool && Alias(k2) in pool[k]
    ensures pool[k][Alias(k2)] == Ref(raw[k][k2].i)
  {
  }

  /** Entry k of a resolved pool: a field f with no f_index beside it is kept as read, and none is added. */
  lemma ResolvedPlain(raw: Pool, pool: Pool, k: int, f: string)
    requires Resolve(raw) == Ok(pool) && k in raw && f + "_index" !in raw[k]
    ensures k in pool && (f in pool[k] <==> f in raw[k])
    ensures f in raw[k] ==> pool[k][f] == raw[k][f]
  {
  }

  /**
   * The name of the class entry at index in a pool as read, before resolution: the "value" of
   * the entry its "name_index" field names, if there are such entries and fields.
   */
  function NameOf(raw: Pool, index: Value): Option<Value>
  {
    if Resolvable(raw, index) && "name_index" in raw[index.i] && Resolvable(raw, raw[index.i]["name_index"]) then
      var name := raw[raw[index.i]["name_index"].i];
      if "value" in name then Some(name["value"]) else None
    else None
  }

  /**
   * constants[index]["name"]["value"] on a resolved pool is the "value" field of the entry that
   * the "name_index" field of entry index names in the pool as read; the lookup fails when
   * there is no such entry or field.
   */
  lemma ClassNameResolved(raw: Pool, pool: Pool, index: Value)
    requires Fielded(raw) && Resolve(raw) == Ok(pool)
    ensures ClassName(pool, index).Ok? <==> NameOf(raw, index).Some?
    ensures ClassName(pool, index).Ok? ==> ClassName(pool, index).value == NameOf(raw, index).value
  {
    if Resolvable(raw, index) {
      if "name_index" in raw[index.i] {
        ClassNameFound(raw, pool, index);
      } else {
        ClassNameUnnamed(raw, pool, index);
      }
    }
  }

  lemma ClassNameUnnamed(raw: Pool, pool: Pool, index: Value)
    requires Fielded(raw) && Resolve(raw) == Ok(pool)
    requires Resolvable(raw, index) && "name_index" !in raw[index.i]
    ensures ClassName(pool, index) == Err(KeyError)
  {
    NotFields();
    Suffixed();
    ResolvedPlain(raw, pool, index.i, "name");
  }

  lemma ClassNameFound(raw: Pool, pool: Pool, index: Value)
    requires Fielded(raw) && Resolve(raw) == Ok(pool)
    requires Resolvable(raw, index) && "name_index" in raw[index.i]
    ensures Resolvable(raw, raw[index.i]["name_index"])
    ensures var j := raw[index.i]["name_index"].i;
      ClassName(pool, index) == if "value" in raw[j] then Ok(raw[j]["value"]) else Err(KeyError)
  {
    NotFields();
    Suffixed();
    var i := index.i;
    AliasOf("name");
    ResolvedIndex(raw, pool, i, "name_index");
    var j := raw[i]["name_index"].i;
    assert "value_index" !in raw[j];
    ResolvedPlain(raw, pool, j, "value");
  }
}
