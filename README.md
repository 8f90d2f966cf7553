# Solum class-file decoder and the dump extractors, in Dafny

This project models the core of Solum, a Python 2 reader for Java `.class` files. It also
models two extractors of the `dump.py` script built on top of it.

- **The class-file decoder** is `ClassFile._load_from_buffer`. One byte cursor, `src`, runs over
  the class file's bytes. It checks the magic number `0xCAFEBABE` and reads the minor and major
  version. It then decodes the constant pool (`_load_constant_pool`), followed by the access flags,
  the this and super class indices and the interface indices. Finally it hands the cursor to the
  field, method and attribute tables. The grammar is that of section 4.1 and section 4.4 of the
  Java Virtual Machine Specification, with the tag values of Table 4.4-A.
- **The constant pool** reads tag-dispatched entries into 1-based slots while the slot number is
  below the pool count. A Long or Double entry takes two slots (section 4.4.5 of the Java Virtual
  Machine Specification). A resolution pass then runs over the complete pool. For every field
  named `x_index`, it adds a field `x` referring to the entry at that index.
- **The `is_*` properties** test single bits of the class access flags against the masks of
  Table 4.1-A of the Java Virtual Machine Specification.
- **`stats_US`** reads the `key=value` lines of the `lang/stats_US.lang` language file. It builds
  a dictionary of stat names and one of achievement names and descriptions.
- **`packet_ids`** is a small stack machine over the decoded instructions of the packet class's
  static initialiser. It rebuilds the table from class name to packet id and direction flags.

## Files

| file | module | what it holds |
|---|---|---|
| `wrappers.dfy` | `Wrappers` | `Option`, `Result` and the Python exceptions raised (`ClassError`, `struct.error`, `KeyError`, `IndexError`, `ValueError`, `TypeError`) |
| `bigendian.dfy` | `BigEndian` | bytes, unsigned and two's-complement big-endian decoding and encoding, with their round trips |
| `struct.dfy` | `Struct` | `struct.calcsize` / `struct.unpack_from` for the big-endian codes the decoder uses; the cursor step `Read` |
| `constantpool.dfy` | `ConstantPool` | the entry reader, the slot loop, the resolution pass (function and loops), slot numbering, truncation and serialization round trips |
| `classfile.dfy` | `ClassFile` | the whole parse as functions, the `ClassFile` class whose methods move the cursor `pos` and fill the fields, and the access-flag tests |
| `layout.dfy` | `ClassLayout` | the byte offsets at which an accepted class file holds each part |
| `text.dfy` | `Text` | `str.strip`, `str.split(c)` and `str.split(c, 1)`, `startswith` and `endswith` |
| `stats.dfy` | `Stats` | `stats_US`: a line classifier, the loop as a method, and "last line wins" lemmas |
| `packets.dfy` | `Packets` | `packet_ids`: the stack machine as a function and as a loop, with its lemmas |

Modelling choices:

- **Pool entries.** A pool entry is the dictionary the decoder builds: `map<string, Value>`. The
  pool is `map<int, Entry>`, keyed by slot.
- **Resolved fields.** A resolved field holds `Ref(slot)`. This stands for Python's live reference
  to the entry dictionary at that slot.
- **Error kinds.** The errors are the exceptions the code actually raises:
  - a wrong magic number raises `ClassError("invalid class file")`;
  - a read past the end of the buffer raises `struct.error`;
  - an unknown tag or an index with no stored entry raises `KeyError`.

  The code has no separate truncation, magic or malformed-pool error types.
- **The skipped slot.** The second slot of a Long or Double is left empty, and the code does
  nothing special about it. An `x_index` field that names the skipped slot makes the resolution
  pass raise `KeyError` (`SkippedSlotUnresolvable`).
- **Source language.** The source is Python 2, so `dict.items()` returns a list. The resolution
  loop therefore iterates over a snapshot of the pool and of each entry, so adding alias keys
  while it runs is well defined.
- **The cursor's return shape.** `src` returns a lone value for a one-code format and a tuple
  otherwise. This is kept, so a class with exactly one interface stores a scalar in
  `_interfaces`.

## Model

| member | source | states |
|---|---|---|
| `Struct.Read` | solum/classfile/classfile.py:67-71 | a read succeeds exactly when `calcsize(format)` bytes remain; it then advances the cursor by exactly that many; it yields a scalar exactly for a one-code format and otherwise as many values as codes; a short buffer raises `struct.error` |
| `Struct.UnpackFrom` | solum/classfile/classfile.py:69 | `unpack_from` succeeds exactly when the buffer holds `calcsize(fmt)` bytes from the offset, gives one value per code, and otherwise raises `struct.error` |
| `Struct.UnpackPack` | solum/classfile/classfile.py:69 | round trip: unpacking the big-endian bytes packed for values in range gives those values back, wherever they sit in the buffer |
| `Struct.ReadPacked` | solum/classfile/classfile.py:67-71 | `src` over packed bytes returns the packed values (a scalar for one code) and moves the cursor to just after them |
| `BigEndian.DecodeEncode` | solum/classfile/classfile.py:69 | a big-endian unsigned field decodes back to the value it encodes |
| `BigEndian.DecodeSignedEncodeSigned` | solum/classfile/classfile.py:119 | a two's-complement big-endian field (`>i`, `>q`) decodes back to the value it encodes |
| `ConstantPool.ReadInfo` | solum/classfile/classfile.py:107-136 | the per-tag reader: an unknown tag raises `KeyError`; a known tag fails only with `struct.error`; a success consumes at least the two bytes of its smallest entry and stays within the buffer |
| `ConstantPool.ReadUtf8Reads` | solum/classfile/classfile.py:132-134 | a Utf8 entry is a 2-byte length read with `>H`, then exactly that many bytes read with `>%ss` as its value |
| `ConstantPool.ReadPool` | solum/classfile/classfile.py:102-137 | the slot loop only moves the cursor forward and never past the end of the buffer; it fails only with `struct.error` or `KeyError` |
| `ConstantPool.Alias` | solum/classfile/classfile.py:141-142 | `k2[:-6]` is the name that, followed by `_index`, gives the index key back |
| `ConstantPool.Resolve` | solum/classfile/classfile.py:139-142 | the resolution pass fails (`KeyError`) exactly when some index names no stored slot; otherwise it keeps the slots and every original field, binds each `x_index`'s `x` to the entry at that index (forward references included), and adds nothing else |
| `ConstantPool.ResolveIndices` | solum/classfile/classfile.py:139-142 | the nested resolution loops over the entries and their fields compute exactly the resolution pass |
| `ConstantPool.ResolveFields` | solum/classfile/classfile.py:140-142 | the inner loop over one entry succeeds exactly when each of its index fields names a stored slot; it then gives the entry with every alias added |
| `ConstantPool.PoolSlots` | solum/classfile/classfile.py:105-137 | every decoded pool stores nothing at slot 0 or at count and beyond; a slot in between is filled exactly when the slot before it is not a Long or Double; every entry carries a known tag |
| `ConstantPool.SkippedSlotUnresolvable` | solum/classfile/classfile.py:122-142 | the slot after a Long or Double stays empty, so an index naming it makes resolution raise `KeyError` |
| `ConstantPool.ReadPoolPrefix` | solum/classfile/classfile.py:102-137 | truncation: a pool decodes identically from any prefix of the buffer that holds it, and from a prefix cut inside it the loop raises `struct.error` |
| `ConstantPool.ReadConstant` | solum/classfile/classfile.py:107-136 | reading a serialized constant yields its tag and then exactly its fields, consuming exactly its bytes |
| `ConstantPool.PoolRoundTrip` | solum/classfile/classfile.py:102-137 | decoding serialized constants from slot 1 with count `1 + slots` gives each constant's entry at its reference slot (two slots for Long and Double), with the cursor just after them |
| `ConstantPool.ReadPoolFields` | solum/classfile/classfile.py:108-136 | the decoder stores no field other than the tag and the six field names of the entry readers |
| `ConstantPool.ClassNameResolved` | solum/classfile/classfile.py:84-85 | `constants[i]["name"]["value"]` on the resolved pool is the `value` of the entry that `name_index` of entry `i` names in the pool as read, and fails when there is none |
| `ClassFile.ReadTable` | solum/classfile/classfile.py:89-93 | a table reader handed the cursor either fails or moves the cursor forward within the buffer; reading beyond the end is an error |
| `ClassFile.LoadPool` | solum/classfile/classfile.py:95-144 | `_load_constant_pool` fails only with `struct.error` or `KeyError` and, on success, has consumed at least the 2-byte count |
| `ClassFile.ParseBody` | solum/classfile/classfile.py:77-80 | after the magic number, a successful parse consumes at least the version, the pool count, the four header words and stays within the buffer |
| `ClassFile.ParseHeader` | solum/classfile/classfile.py:82-87 | the header after the pool consumes at least its four 2-byte fields |
| `ClassFile.ParseTables` | solum/classfile/classfile.py:89-93 | the field, method and attribute tables only move the cursor forward, and change nothing else the class holds |
| `ClassFile.TableOrder` | solum/classfile/classfile.py:89-93 | in a successful parse the field table reads at the cursor the header left, the method table where the field table stopped and the attribute table where the method table stopped; the cursor ends after the attribute table |
| `ClassFile.TableRun` | solum/classfile/classfile.py:89-93 | conversely, three table readers that succeed one after another within the buffer make the tables step succeed, with the cursor after the third and nothing else changed |
| `ClassFile.TableErrors` | solum/classfile/classfile.py:89-93 | the first table reader that fails, in the order field, method, attribute, decides the error |
| `ClassFile.ModifierTests` | solum/classfile/classfile.py:180-210 | for every 16-bit flags word, each `is_*` property is exactly Python's `flags & mask != 0` with its mask: public 0x0001, final 0x0010, super 0x0020, interface 0x0200, abstract 0x0400, synthetic 0x1000, annotation 0x2000, enum 0x4000 |
| `ClassFile.AccessFlagsOf` | solum/classfile/classfile.py:180-210 | the `is_*` tests read back exactly the set of modifiers whose bits a flags word was built from |
| `ClassFile.FlagsOfAccess` | solum/classfile/classfile.py:180-210 | rebuilding a flags word from the modifiers its `is_*` tests report keeps the answer of every test |
| `ClassFile.ClassFile.FromBuffer` | solum/classfile/classfile.py:41-49 | `ClassFile(buff, str_as_buffer=True)` gives a fresh object holding exactly what the parse describes, or raises the parse's error |
| `ClassFile.ClassFile.Src` | solum/classfile/classfile.py:66-71 | `src(format)` unpacks at `_pos` and advances `_pos` by `calcsize(format)`; a failed unpack raises `struct.error` and leaves `_pos` unchanged |
| `ClassFile.ClassFile.LoadEntry` | solum/classfile/classfile.py:107-136 | the branch of the loop body for one tag reads the entry's fields and moves the cursor as the entry reader says |
| `ClassFile.ClassFile.ReadEntries` | solum/classfile/classfile.py:102-137 | the `while x < constant_pool_count` loop builds exactly the pool and cursor of the slot loop, or raises its error |
| `ClassFile.ClassFile.LoadConstantPool` | solum/classfile/classfile.py:95-144 | `_constants` becomes the resolved pool and `_pos` moves past the pool, or the pool's error is raised |
| `ClassFile.ClassFile.LoadTable` | solum/classfile/classfile.py:89-93 | a table handed `src` moves `_pos` past the bytes it reads |
| `ClassFile.ClassFile.LoadFromBuffer` | solum/classfile/classfile.py:65-93 | `_load_from_buffer` leaves the object holding exactly what the parse describes, and raises exactly the parse's error otherwise |
| `ClassFile.ClassFile.LoadBody` | solum/classfile/classfile.py:77-80 | the version is stored as `(major, minor)`, then the pool and the rest are loaded |
| `ClassFile.ClassFile.LoadHeader` | solum/classfile/classfile.py:82-87 | flags, this, superclass and the interface indices are set from the four words after the pool |
| `ClassFile.ClassFile.LoadTables` | solum/classfile/classfile.py:89-93 | handing `src` to the three tables leaves the object exactly as the tables step describes (the order is stated by `TableOrder`, `TableRun` and `TableErrors`); only `_pos` changes |
| `ClassLayout.MagicNumber` | solum/classfile/classfile.py:73-75 | a buffer under 4 bytes raises `struct.error`; a wrong magic number raises `ClassError("invalid class file")` whatever follows; the right one hands the cursor, at 4, to the rest |
| `ClassLayout.MagicBytes` | solum/classfile/classfile.py:73-75 | every accepted class file starts with the bytes CA FE BA BE |
| `ClassLayout.BodyLayout` | solum/classfile/classfile.py:77-80 | the version is `(major, minor)` with the minor word read first; the kept pool is the resolution of the entries read after the count; the header follows the entries |
| `ClassLayout.HeaderLayout` | solum/classfile/classfile.py:82-93 | flags, this and super indices and the interface count are the four words after the pool; this and superclass are the names of the class entries they index; the `n` interface indices follow, a scalar when `n` is 1; the tables step then starts at the cursor right after the interface indices, at `pos + 8 + 2n` |
| `ClassLayout.ReadWords` | solum/classfile/classfile.py:87 | `src(">%sH" % n)` reads the `n` 2-byte words in order, advancing the cursor by `2n`, a scalar exactly when `n` is 1 |
| `ClassLayout.ParseLayout` | solum/classfile/classfile.py:73-93 | the fixed parse order of an accepted file: magic, minor and major at 4 and 6, pool count at 8, entries from 10 numbered from slot 1 with two slots per Long and Double, then the header |
| `ClassLayout.ClassNames` | solum/classfile/classfile.py:84-85 | this and superclass are the names, in the pool as read, of the class entries that the words at 2 and 4 bytes past the pool index |
| `Text.Find` | dump.py:123-124 | the first index of the separator, or -1 exactly when it is absent |
| `Text.SplitOnce` | dump.py:123-124 | `split(c, 1)` into two parts fails exactly when `c` is absent; otherwise the parts rejoin with `c` to the string and the first has no `c` |
| `Text.SplitOnceOf` | dump.py:123-124 | the split is at the first separator, so the part after it may itself hold the separator |
| `Text.StripSpec` | dump.py:119 | `strip()` is the part of the line between leading and trailing whitespace |
| `Text.StripEmpty` | dump.py:119-121 | a line strips to empty exactly when it is all whitespace |
| `Text.Split` | dump.py:117 | `split("\n")` gives at least one piece and no piece holds a newline |
| `Text.JoinSplit` | dump.py:117 | joining the pieces of `split` with the separator gives the text back |
| `Text.SplitJoin` | dump.py:117 | splitting a join of separator-free pieces gives the pieces back |
| `Stats.StatsUS` | dump.py:110-138 | the loop over the lines computes exactly the reference reading of the file, or raises its `ValueError` |
| `Stats.ReadLine` | dump.py:118-136 | the loop body raises `ValueError` exactly on a malformed line and otherwise applies the line |
| `Stats.AddAchievement` | dump.py:128-136 | the achievement branch: a `.desc` name sets `desc` of the name without its 5-character suffix, any other name sets `name`, the entry created as `{}` if new |
| `Stats.ApplyLinesFails` | dump.py:123-124 | the loop raises exactly when some line is malformed, and then raises `ValueError` |
| `Stats.BlankSkipped` | dump.py:119-121 | a line empty after stripping changes nothing wherever it stands |
| `Stats.BlankLine` | dump.py:119-121 | a line is skipped exactly when it is all whitespace |
| `Stats.MalformedLine` | dump.py:123-124 | a line raises exactly when it is not blank and lacks the `=` or the `.` before it |
| `Stats.StatLine` | dump.py:123-127 | `stat.NAME=D` sets stat NAME to D, even when D holds `=` |
| `Stats.AchievementDescLine` | dump.py:128-134 | `achievement.NAME.desc=D` sets the description of NAME |
| `Stats.AchievementNameLine` | dump.py:128-136 | `achievement.NAME=D`, with NAME not ending in `.desc`, sets the name text of NAME |
| `Stats.OtherCategory` | dump.py:123-136 | a line that splits at its first `=` and then at its first `.` into a category other than `stat` and `achievement` is ignored: both dictionaries stay as they were |
| `Stats.ApplyLinesAppend` | dump.py:118 | the lines are read strictly in order: reading two runs one after the other is reading their concatenation |
| `Stats.StatIsLast` | dump.py:126-127 | a later stat line for a name overwrites an earlier one: each stat is the last one given |
| `Stats.AchievementIsNamed` | dump.py:129-131 | an achievement entry exists exactly when some achievement line names it |
| `Stats.AchievementIsLast` | dump.py:128-136 | the `desc` and `name` of each achievement are the last ones given |
| `Packets.PacketIds` | dump.py:80-108 | the loop over the instructions computes exactly the stack machine's table, or raises its error |
| `Packets.Execute` | dump.py:91-106 | the loop body for one instruction is exactly one step of the stack machine |
| `Packets.RunAppend` | dump.py:90 | instructions run strictly in sequence: running two pieces one after the other is running their concatenation |
| `Packets.Depth` | dump.py:92-104 | every push adds one value to the stack and every `ldc` removes three |
| `Packets.Keys` | dump.py:97-106 | a run adds to the table exactly the class names its `ldc` instructions load, and removes none |
| `Packets.Untouched` | dump.py:106 | the record of a class name that no `ldc` loads is left as it was |
| `Packets.LoadRecords` | dump.py:97-106 | `ldc` pops client, server and id in that order and records `{id, bool(client), bool(server)}` under the class name its operand indexes |
| `Packets.LoadErrors` | dump.py:97-104 | `ldc` raises on a missing operand, then on a failed class lookup, then exactly when fewer than three values are on the stack |
| `Packets.LastLoadWins` | dump.py:90-106 | the record under a class name is the one of the last `ldc` that loads it |
| `Packets.IconstPushes` | dump.py:92-93 | `iconst_0` to `iconst_5` push their digit |
| `Packets.IconstM1` | dump.py:92-93 | `iconst_m1` pushes 1, because only the last character of the mnemonic is read |
| `Packets.IpushPushes` | dump.py:95-96 | `bipush` and `sipush` push their first operand's value, and raise `IndexError` without one |
| `Packets.OthersIgnored` | dump.py:91-97 | every other instruction leaves the stack and the table unchanged |
| `Packets.Declare` | dump.py:91-106 | the per-packet pattern `bipush id; iconst server; iconst client; ldc class` records `(id, client != 0, server != 0)` and leaves the stack as it was |

## Left out

- File and path loading (`_load_from_path`, `_load_from_file`) and the constructor's dispatch on file-like objects are I/O. Only the buffer entry point `ClassFile(buff, str_as_buffer=True)` is modelled.
- IEEE float and double decoding for tags 4 and 6 is not modelled. Their values are kept as opaque 4- and 8-byte spans (`Opaque`), since only their widths move the cursor.
- `solum/classfile/constants.py` is not part of this model. The `ConstantPool` class is taken to be a plain dictionary from slot to entry. An unknown tag therefore raises `KeyError` at `constant_pool[x]["tag"] = tag`, and an index naming no slot raises `KeyError` in the resolution pass.
- `solum/classfile/fields.py`, `methods.py` and `attributes.py` are not part of this model. `FieldTable`, `MethodTable` and `AttributeTable` are parameters (`TableReader`): each gives the number of bytes it reads from the cursor, or the error it raises. What they build is not modelled.
- Resolve: a resolved field is `Ref(slot)`, a key into the pool. Python stores a live reference to the entry dictionary, which the same pass later extends with that entry's own aliases. The model does not capture this aliasing of dictionaries.
- The `struct` library is modelled only for the big-endian codes the decoder uses (`B`, `H`, `I`, `i`, `q`, `f`, `d`, `Ns`). No other format is modelled.
- The `constants`, `interfaces`, `fields`, `methods` and `attributes` properties only guard against an object that was never loaded. They are not modelled.
- `dump.py` `main` is not modelled. It covers command-line options, file opening, JSON output and the parallel map over the archive's entries, which are I/O and concurrency.
- `dump.py` `first_pass` is not modelled. It is only a chain of lookups in modules that are not part of this model.
- `packet_ids` takes the resolved pool and the instruction sequence as parameters. Loading the class from the archive, finding the `<clinit>` method and decoding its bytecode use modules that are not part of this model. An instruction's operands are the values of its operand pairs.
- `stats_US` takes the text of `lang/stats_US.lang` as a string. The archive lookup is I/O.
- The language file is a Python 2 byte string. The model reads each byte as the character with the same code. Whitespace for `strip()` is the C-locale set (space, tab, newline, vertical tab, form feed, carriage return), and both separators are ASCII.
- `stats_US` and `packet_ids` raise their exceptions partway through the loop. The model returns the error and discards the partly updated dictionaries, which the caller never sees.
