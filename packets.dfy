/**
 * dump.packet_ids: the static initialiser of the packet class pushes, for each packet, its id and
 * two direction flags, then loads the packet's class constant; a small stack machine over the
 * decoded instructions turns that into a table from class name to (id, from client, from server).
 */
module Packets {
  import opened Wrappers
  import opened Struct
  import opened ConstantPool
  import opened Text

  /** A decoded instruction: its mnemonic and the values of its operands (the [1] of each operand pair). */
  datatype Instruction = Instruction(name: string, operands: seq<int>)

  /** {"id": id_, "from_client": bool(client), "from_server": bool(server)} */
  datatype Packet = Packet(id: int, fromClient: bool, fromServer: bool)

  /** The loop's state: the operand stack (top last) and ret, keyed by class name. */
  datatype Machine = Machine(stack: seq<int>, ret: map<Value, Packet>)

  const Start := Machine([], map[])

  /** Which branch of the loop body an instruction takes; the tests are tried in this order. */
  datatype Kind = Const | Push | Load | Other

  function KindOf(name: string): Kind
  {
    if StartsWith(name, "iconst") then Const
    else if EndsWith(name, "ipush") then Push
    else if name == "ldc" then Load
    else Other
  }

  /** int(c) for a one-character str: a decimal digit, or a ValueError. */
  function DigitValue(c: char): Option<int>
  {
    if '0' <= c <= '9' then Some(c as int - '0' as int) else None
  }

  /** The truth value Python gives an int. */
  predicate Truthy(v: int)
  {
    v != 0
  }

  /** One turn of the loop: the new stack and table, or the exception the instruction raises. */
  function Exec(constants: Pool, m: Machine, ins: Instruction): Result<Machine>
  {
    match KindOf(ins.name)
    case Const =>
      (match DigitValue(ins.name[|ins.name| - 1])
       case None => Err(ValueError)
       case Some(d) => Ok(m.(stack := m.stack + [d])))
    case Push =>
      if ins.operands == [] then Err(IndexError) else Ok(m.(stack := m.stack + [ins.operands[0]]))
    case Load =>
      if ins.operands == [] then Err(IndexError)
      else
        var name :- ClassName(constants, Int(ins.operands[0]));
        var n := |m.stack|;
        if n < 3 then Err(IndexError)
        else Ok(Machine(m.stack[..n - 3], m.ret[name := Packet(m.stack[n - 3], Truthy(m.stack[n - 1]), Truthy(m.stack[n - 2]))]))
    case Other => Ok(m)
  }

  /** The instructions run in order from m; the first exception ends the run. */
  function Run(constants: Pool, m: Machine, code: seq<Instruction>): Result<Machine>
    decreases |code|
  {
    if code == [] then Ok(m)
    else
      var next :- Exec(constants, m, code[0]);
      Run(constants, next, code[1..])
  }

  /** packet_ids on the resolved pool and the instructions of <clinit>. */
  function PacketIdsOf(constants: Pool, code: seq<Instruction>): Result<map<Value, Packet>>
  {
    var m :- Run(constants, Start, code);
    Ok(m.ret)
  }

  /** packet_ids: the loop over the instructions, pushing and popping stack and writing into ret. */
  method PacketIds(constants: Pool, code: seq<Instruction>) returns (r: Result<map<Value, Packet>>)
    ensures r == PacketIdsOf(constants, code)
  {
    var ret: map<Value, Packet> := map[];
    var stack: seq<int> := [];
    for i := 0 to |code|
      invariant Run(constants, Start, code) == Run(constants, Machine(stack, ret), code[i..])
    {
      RunStep(constants, Machine(stack, ret), code, i);
      var next := Execute(constants, stack, ret, code[i]);
      if next.Err? {
        return Err(next.error);
      }
      stack, ret := next.value.stack, next.value.ret;
    }
    return Ok(ret);
  }

  /** The body of the loop of packet_ids for one instruction. */
  method Execute(constants: Pool, stack0: seq<int>, ret0: map<Value, Packet>, ins: Instruction) returns (r: Result<Machine>)
    ensures r == Exec(constants, Machine(stack0, ret0), ins)
  {
    var stack, ret := stack0, ret0;
    if StartsWith(ins.name, "iconst") {
      var d := DigitValue(ins.name[|ins.name| - 1]);
      if d.None? {
        return Err(ValueError);
      }
      stack := stack + [d.value];
    } else if EndsWith(ins.name, "ipush") {
      if ins.operands == [] {
        return Err(IndexError);
      }
      stack := stack + [ins.operands[0]];
    } else if ins.name == "ldc" {
      if ins.operands == [] {
        return Err(IndexError);
      }
      var constI := ins.operands[0];
      var name := ClassName(constants, Int(constI));
      if name.Err? {
        return Err(name.error);
      }
      if |stack| == 0 {
        return Err(IndexError);
      }
      var client := stack[|stack| - 1];
      stack := stack[..|stack| - 1];
      if |stack| == 0 {
        return Err(IndexError);
      }
      var server := stack[|stack| - 1];
      stack := stack[..|stack| - 1];
      if |stack| == 0 {
        return Err(IndexError);
      }
      var id := stack[|stack| - 1];
      stack := stack[..|stack| - 1];
      assert stack == stack0[..|stack0| - 3];
      ret := ret[name.value := Packet(id, Truthy(client), Truthy(server))];
    }
    return Ok(Machine(stack, ret));
  }

  /** One turn of the loop at instruction i. */
  lemma RunStep(constants: Pool, m: Machine, code: seq<Instruction>, i: int)
    requires 0 <= i < |code|
    ensures Run(constants, m, code[i..]) ==
      match Exec(constants, m, code[i])
      case Ok(next) => Run(constants, next, code[i + 1..])
      case Err(e) => Err(e)
  {
    assert code[i..][0] == code[i] && code[i..][1..] == code[i + 1..];
  }

  /** Running two pieces of code one after the other is running their concatenation, in order. */
  lemma {:induction false} RunAppend(constants: Pool, m: Machine, a: seq<Instruction>, b: seq<Instruction>)
    ensures Run(constants, m, a + b) ==
      match Run(constants, m, a)
      case Ok(mid) => Run(constants, mid, b)
      case Err(e) => Err(e)
    decreases |a|
  {
    if a == [] {
      assert a + b == b;
    } else {
      assert (a + b)[0] == a[0] && (a + b)[1..] == a[1..] + b;
      match Exec(constants, m, a[0])
      case Ok(next) => RunAppend(constants, next, a[1..], b);
      case Err(_) =>
    }
  }

  /** The class name an instruction records a packet under, if it is an ldc whose lookup succeeds. */
  function LoadName(constants: Pool, ins: Instruction): Option<Value>
  {
    if KindOf(ins.name) == Load && ins.operands != [] && ClassName(constants, Int(ins.operands[0])).Ok? then
      Some(ClassName(constants, Int(ins.operands[0])).value)
    else None
  }

  /** The class names that the ldc instructions of code load. */
  function Names(constants: Pool, code: seq<Instruction>): set<Value>
    decreases |code|
  {
    if code == [] then {}
    else
      (match LoadName(constants, code[0]) case Some(n) => {n} case None => {}) + Names(constants, code[1..])
  }

  /** The number of iconst and ipush instructions in code. */
  function Pushes(code: seq<Instruction>): nat
    decreases |code|
  {
    if code == [] then 0 else (if KindOf(code[0].name) in {Const, Push} then 1 else 0) + Pushes(code[1..])
  }

  /** The number of ldc instructions in code. */
  function Loads(code: seq<Instruction>): nat
    decreases |code|
  {
    if code == [] then 0 else (if KindOf(code[0].name) == Load then 1 else 0) + Loads(code[1..])
  }

  /** Every push adds one value and every ldc takes three off the stack. */
  lemma {:induction false} Depth(constants: Pool, m: Machine, code: seq<Instruction>)
    requires Run(constants, m, code).Ok?
    ensures |Run(constants, m, code).value.stack| == |m.stack| + Pushes(code) - 3 * Loads(code)
    decreases |code|
  {
    if code != [] {
      var next := Exec(constants, m, code[0]).value;
      Depth(constants, next, code[1..]);
    }
  }

  /** A run adds to ret exactly the class names its ldc instructions load, and removes none. */
  lemma {:induction false} Keys(constants: Pool, m: Machine, code: seq<Instruction>)
    requires Run(constants, m, code).Ok?
    ensures Run(constants, m, code).value.ret.Keys == m.ret.Keys + Names(constants, code)
    decreases |code|
  {
    if code != [] {
      var next := Exec(constants, m, code[0]).value;
      Keys(constants, next, code[1..]);
    }
  }

  /** The record of a class name that no ldc of code loads is left as it was. */
  lemma {:induction false} Untouched(constants: Pool, m: Machine, code: seq<Instruction>, n: Value)
    requires Run(constants, m, code).Ok? && n !in Names(constants, code)
    ensures var ret := Run(constants, m, code).value.ret;
      (n in ret <==> n in m.ret) && (n in m.ret ==> ret[n] == m.ret[n])
    decreases |code|
  {
    if code != [] {
      var next := Exec(constants, m, code[0]).value;
      Untouched(constants, next, code[1..], n);
    }
  }

  /** An ldc whose class lookup succeeds on a stack of at least three values records them and pops them. */
  lemma LoadRecords(constants: Pool, m: Machine, ins: Instruction, rest: seq<int>, id: int, server: int, client: int)
    requires LoadName(constants, ins).Some? && m.stack == rest + [id, server, client]
    ensures Exec(constants, m, ins) == Ok(Machine(rest, m.ret[LoadName(constants, ins).value := Packet(id, Truthy(client), Truthy(server))]))
  {
    var n := |m.stack|;
    assert m.stack[..n - 3] == rest;
    assert m.stack[n - 3] == id && m.stack[n - 2] == server && m.stack[n - 1] == client;
  }

  /** The exceptions of an ldc: no operand, then a failed class lookup, then too few values to pop. */
  lemma LoadErrors(constants: Pool, m: Machine, ins: Instruction)
    requires KindOf(ins.name) == Load
    ensures ins.operands == [] ==> Exec(constants, m, ins) == Err(IndexError)
    ensures ins.operands != [] && ClassName(constants, Int(ins.operands[0])).Err? ==>
      Exec(constants, m, ins) == Err(ClassName(constants, Int(ins.operands[0])).error)
    ensures LoadName(constants, ins).Some? ==> (Exec(constants, m, ins).Err? <==> |m.stack| < 3)
    ensures Exec(constants, m, ins).Err? ==> Exec(constants, m, ins).error != ValueError
  {
  }

  /**
   * The packet recorded under a class name is the one of the last ldc that loads it: the three
   * values on top of the stack just before that ldc, whatever runs after it.
   */
  lemma LastLoadWins(constants: Pool, m: Machine, a: seq<Instruction>, ld: Instruction, b: seq<Instruction>, n: Value)
    requires Run(constants, m, a + [ld] + b).Ok?
    requires LoadName(constants, ld) == Some(n) && n !in Names(constants, b)
    ensures Run(constants, m, a).Ok? && |Run(constants, m, a).value.stack| >= 3
    ensures var s := Run(constants, m, a).value.stack;
      n in Run(constants, m, a + [ld] + b).value.ret &&
      Run(constants, m, a + [ld] + b).value.ret[n] == Packet(s[|s| - 3], Truthy(s[|s| - 1]), Truthy(s[|s| - 2]))
  {
    RunAppend(constants, m, a, [ld] + b);
    assert a + [ld] + b == a + ([ld] + b);
    var mid := Run(constants, m, a).value;
    assert ([ld] + b)[0] == ld && ([ld] + b)[1..] == b;
    var s := mid.stack;
    var after := Exec(constants, mid, ld).value;
    assert after.ret[n] == Packet(s[|s| - 3], Truthy(s[|s| - 1]), Truthy(s[|s| - 2]));
    Untouched(constants, after, b, n);
  }

  /** iconst_0 to iconst_5 push their digit. */
  lemma IconstPushes(constants: Pool, m: Machine, d: char, operands: seq<int>)
    requires '0' <= d <= '5'
    ensures Exec(constants, m, Instruction("iconst_" + [d], operands)) == Ok(m.(stack := m.stack + [d as int - '0' as int]))
  {
    var name := "iconst_" + [d];
    assert name[..6] == "iconst" && name[6] == '_';
    assert name[|name| - 1] == d;
  }

  /** iconst_m1 pushes 1, not -1: only the last character of the mnemonic is read. */
  lemma IconstM1(constants: Pool, m: Machine, operands: seq<int>)
    ensures Exec(constants, m, Instruction("iconst_m1", operands)) == Ok(m.(stack := m.stack + [1]))
  {
    var name := "iconst_m1";
    assert name[..6] == "iconst";
  }

  /** bipush and sipush push the value of their first operand, and raise IndexError without one. */
  lemma IpushPushes(constants: Pool, m: Machine, name: string, operands: seq<int>)
    requires name == "bipush" || name == "sipush"
    ensures operands == [] ==> Exec(constants, m, Instruction(name, operands)) == Err(IndexError)
    ensures operands != [] ==> Exec(constants, m, Instruction(name, operands)) == Ok(m.(stack := m.stack + [operands[0]]))
  {
    assert name[..6] != "iconst" by {
      assert name[0] != 'i';
    }
    assert name[|name| - 5..] == "ipush";
  }

  /** The instructions the loop acts on: all but those of kind Other. */
  function Relevant(code: seq<Instruction>): (r: seq<Instruction>)
    ensures |r| <= |code|
    decreases |code|
  {
    if code == [] then []
    else (if KindOf(code[0].name) == Other then [] else [code[0]]) + Relevant(code[1..])
  }

  /** Any other instruction leaves the stack and ret as they are: dropping them all changes nothing. */
  lemma {:induction false} OthersIgnored(constants: Pool, m: Machine, code: seq<Instruction>)
    ensures Run(constants, m, code) == Run(constants, m, Relevant(code))
    decreases |code|
  {
    if code != [] {
      var r := Relevant(code);
      if KindOf(code[0].name) == Other {
        assert Exec(constants, m, code[0]) == Ok(m);
        OthersIgnored(constants, m, code[1..]);
        assert r == Relevant(code[1..]);
      } else {
        assert r[0] == code[0] && r[1..] == Relevant(code[1..]);
        match Exec(constants, m, code[0])
        case Ok(next) => OthersIgnored(constants, next, code[1..]);
        case Err(_) =>
      }
    }
  }

  /**
   * The pattern the static initialiser repeats for each packet: push the id, push the server flag,
   * push the client flag, load the class. It records (id, client, server) under the class name and
   * leaves the stack as it was.
   */
  lemma Declare(constants: Pool, m: Machine, id: int, server: char, client: char, index: int, name: Value)
    requires '0' <= server <= '5' && '0' <= client <= '5'
    requires ClassName(constants, Int(index)) == Ok(name)
    ensures Run(constants, m, [Instruction("bipush", [id]), Instruction("iconst_" + [server], []),
                               Instruction("iconst_" + [client], []), Instruction("ldc", [index])]) ==
      Ok(m.(ret := m.ret[name := Packet(id, client != '0', server != '0')]))
  {
    var code := [Instruction("bipush", [id]), Instruction("iconst_" + [server], []),
                 Instruction("iconst_" + [client], []), Instruction("ldc", [index])];
    var s := server as int - '0' as int;
    var c := client as int - '0' as int;
    IpushPushes(constants, m, "bipush", [id]);
    var m1 := m.(stack := m.stack + [id]);
    IconstPushes(constants, m1, server, []);
    var m2 := m1.(stack := m1.stack + [s]);
    IconstPushes(constants, m2, client, []);
    var m3 := m2.(stack := m2.stack + [c]);
    assert KindOf("ldc") == Load;
    assert m3.stack == m.stack + [id, s, c];
    LoadRecords(constants, m3, code[3], m.stack, id, s, c);
    var m4 := m.(ret := m.ret[name := Packet(id, client != '0', server != '0')]);
    assert Exec(constants, m3, code[3]) == Ok(m4);
    var t1 := code[1..];
    var t2 := t1[1..];
    var t3 := t2[1..];
    assert t1[0] == code[1] && t2[0] == code[2] && t3[0] == code[3] && t3[1..] == [];
    assert Run(constants, m3, t3) == Ok(m4);
    assert Run(constants, m2, t2) == Ok(m4);
    assert Run(constants, m1, t1) == Ok(m4);
  }
}
