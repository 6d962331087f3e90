/**
  The MDO virtual machine of kernel/src/mdo_vm.rs: a 32-slot stack machine that decodes and runs a
  script in one loop, proved against decode-then-run over an unbounded stack.
 */
module MdoVm {
  import opened Bytes

  const HASH_SIZE: nat := 32
  const STACK_DEPTH: nat := 32

  type Hash = h: Text | |h| == HASH_SIZE witness Zeros(HASH_SIZE)

  datatype Context = Context(requestor: Hash, action: Hash, owner: Hash, status: u32)

  const OP_PUSH_VAR: byte := 0x10
  const OP_PUSH_CONST_HASH: byte := 0x11
  const OP_EQ: byte := 0x20
  const OP_NEQ: byte := 0x21
  const OP_ASSERT: byte := 0x30
  const OP_HALT_OK: byte := 0x3F

  const VAR_REQUESTOR: byte := 1
  const VAR_ACTION: byte := 2
  const VAR_OWNER: byte := 3
  const VAR_STATUS: byte := 4

  const MALFORMED: byte := 0xFF
  const UNKNOWN_VARIABLE: byte := 0xFE
  const STACK_ERROR: byte := 0xFD
  const ILLEGAL_INSTRUCTION: byte := 0xFC
  const NO_HALT: byte := 0xFB

  type Verdict = Result<(), byte>

  function StatusHash(status: u32): Hash {
    LittleEndian(status, 4) + Zeros(28)
  }

  function BoolHash(b: bool): Hash {
    [if b then 1 else 0] + Zeros(31)
  }

  /** The value of a system variable, if the identifier is known. */
  function Variable(id: byte, ctx: Context): Option<Hash> {
    if id == VAR_REQUESTOR then Some(ctx.requestor)
    else if id == VAR_ACTION then Some(ctx.action)
    else if id == VAR_OWNER then Some(ctx.owner)
    else if id == VAR_STATUS then Some(StatusHash(ctx.status))
    else None
  }

  // ---------------------------------------------------------------- reference: decode, then run

  datatype Instr = Push(value: Hash) | Compare(equal: bool) | Assert(code: byte)

  /** Straight-line code and the verdict its end stands for. */
  datatype Program = Program(body: seq<Instr>, end: Verdict)

  /** Decodes the script from `pc` on; the context only supplies variable values. */
  function Decode(code: Text, pc: nat, ctx: Context): Program
    requires pc <= |code|
    decreases |code| - pc
  {
    if pc == |code| then Program([], Err(NO_HALT))
    else if code[pc] == OP_PUSH_VAR then
      if pc + 1 >= |code| then Program([], Err(MALFORMED))
      else
        match Variable(code[pc + 1], ctx)
        case None => Program([], Err(UNKNOWN_VARIABLE))
        case Some(v) => Cons(Push(v), Decode(code, pc + 2, ctx))
    else if code[pc] == OP_PUSH_CONST_HASH then
      if pc + 32 >= |code| then Program([], Err(MALFORMED))
      else Cons(Push(code[pc + 1..pc + 33]), Decode(code, pc + 33, ctx))
    else if code[pc] == OP_EQ then Cons(Compare(true), Decode(code, pc + 1, ctx))
    else if code[pc] == OP_NEQ then Cons(Compare(false), Decode(code, pc + 1, ctx))
    else if code[pc] == OP_ASSERT then
      if pc + 1 >= |code| then Program([], Err(MALFORMED))
      else Cons(Assert(code[pc + 1]), Decode(code, pc + 2, ctx))
    else if code[pc] == OP_HALT_OK then Program([], Ok(()))
    else Program([], Err(ILLEGAL_INSTRUCTION))
  }

  function Cons(i: Instr, p: Program): Program {
    Program([i] + p.body, p.end)
  }

  /** What one instruction does to a stack: the next stack, or the error it stops with. */
  function StepStack(i: Instr, stack: seq<Hash>): Result<seq<Hash>, byte> {
    var n := |stack|;
    match i
    case Push(v) => if n >= STACK_DEPTH then Err(STACK_ERROR) else Ok(stack + [v])
    case Compare(equal) =>
      if n < 2 then Err(STACK_ERROR)
      else Ok(stack[..n - 2] + [BoolHash((stack[n - 1] == stack[n - 2]) == equal)])
    case Assert(code) =>
      if n < 1 then Err(STACK_ERROR)
      else if stack[n - 1][0] == 0 then Err(code)
      else Ok(stack[..n - 1])
  }

  /** Runs decoded code on an unbounded stack that may not grow past `STACK_DEPTH`. */
  function RunCode(body: seq<Instr>, end: Verdict, stack: seq<Hash>): Verdict {
    if body == [] then end
    else
      match StepStack(body[0], stack)
      case Err(e) => Err(e)
      case Ok(s) => RunCode(body[1..], end, s)
  }

  function Check(code: Text, ctx: Context): Verdict {
    var p := Decode(code, 0, ctx);
    RunCode(p.body, p.end, [])
  }

  // ---------------------------------------------------------------- the machine

  class MictStack {
    const data: array<Hash>
    var ptr: nat

    ghost predicate Valid()
      reads this
    {
      data.Length == STACK_DEPTH && ptr <= STACK_DEPTH
    }

    ghost function Contents(): seq<Hash>
      requires Valid()
      reads this, data
    {
      data[..ptr]
    }

    constructor ()
      ensures Valid() && Contents() == []
      ensures fresh(data)
    {
      data := new Hash[STACK_DEPTH](_ => Zeros(HASH_SIZE));
      ptr := 0;
    }

    method Push(val: Hash) returns (ok: bool)
      requires Valid()
      modifies this, data
      ensures Valid()
      ensures ok == (old(ptr) < STACK_DEPTH)
      ensures Contents() == if ok then old(Contents()) + [val] else old(Contents())
    {
      if ptr >= STACK_DEPTH {
        return false;
      }
      data[ptr] := val;
      ptr := ptr + 1;
      return true;
    }

    method Pop() returns (r: Option<Hash>)
      requires Valid()
      modifies this
      ensures Valid()
      ensures r.None? <==> old(Contents()) == []
      ensures r.None? ==> Contents() == []
      ensures r.Some? ==> old(Contents()) == Contents() + [r.value]
    {
      if ptr == 0 {
        return None;
      }
      ptr := ptr - 1;
      return Some(data[ptr]);
    }
  }

  /** What is left to run of the script, seen from the machine's current state. */
  ghost function Remaining(code: Text, pc: nat, ctx: Context, stack: seq<Hash>): Verdict
    requires pc <= |code|
  {
    var p := Decode(code, pc, ctx);
    RunCode(p.body, p.end, stack)
  }

  lemma RemainingStep(code: Text, pc: nat, next: nat, i: Instr, ctx: Context, stack: seq<Hash>)
    requires pc < next <= |code|
    requires Decode(code, pc, ctx) == Cons(i, Decode(code, next, ctx))
    ensures var after := StepStack(i, stack);
            Remaining(code, pc, ctx, stack) ==
            if after.Err? then Err(after.error) else Remaining(code, next, ctx, after.value)
  {
    var p := Decode(code, next, ctx);
    assert Cons(i, p).body[0] == i && Cons(i, p).body[1..] == p.body;
  }

  /** EQ and NEQ: pop two values, push the outcome. */
  method ExecuteCompare(equal: bool, stack: MictStack) returns (r: Verdict)
    requires stack.Valid()
    modifies stack, stack.data
    ensures stack.Valid()
    ensures var next := StepStack(Compare(equal), old(stack.Contents()));
            if next.Err? then r == Err(next.error) else r == Ok(()) && stack.Contents() == next.value
  {
    ghost var before := stack.Contents();
    var a := stack.Pop();
    if a.None? { return Err(STACK_ERROR); }
    var b := stack.Pop();
    if b.None? { return Err(STACK_ERROR); }
    ghost var rest := stack.Contents();
    assert before == rest + [b.value] + [a.value];
    assert before[..|before| - 2] == rest;
    var ok := stack.Push(BoolHash((a.value == b.value) == equal));
    return if ok then Ok(()) else Err(STACK_ERROR);
  }

  /** One decoded instruction on the 32-slot stack. */
  method Execute(i: Instr, stack: MictStack) returns (r: Verdict)
    requires stack.Valid()
    modifies stack, stack.data
    ensures stack.Valid()
    ensures var next := StepStack(i, old(stack.Contents()));
            if next.Err? then r == Err(next.error) else r == Ok(()) && stack.Contents() == next.value
  {
    ghost var before := stack.Contents();
    match i
    case Push(v) =>
      var ok := stack.Push(v);
      return if ok then Ok(()) else Err(STACK_ERROR);
    case Compare(equal) =>
      r := ExecuteCompare(equal, stack);
    case Assert(code) =>
      var top := stack.Pop();
      if top.None? { return Err(STACK_ERROR); }
      assert before[..|before| - 1] == stack.Contents();
      return if top.value[0] == 0 then Err(code) else Ok(());
  }

  /** `execute_mict_check`: the fused loop gives the reference verdict on every byte string. */
  method ExecuteMictCheck(code: Text, ctx: Context) returns (verdict: Verdict)
    ensures verdict == Check(code, ctx)
  {
    var stack := new MictStack();
    var pc := 0;
    while pc < |code|
      invariant pc <= |code|
      invariant stack.Valid() && fresh(stack) && fresh(stack.data)
      invariant Remaining(code, pc, ctx, stack.Contents()) == Check(code, ctx)
    {
      var i, next;
      if code[pc] == OP_PUSH_VAR {
        if pc + 1 >= |code| { return Err(MALFORMED); }
        var v := Variable(code[pc + 1], ctx);
        if v.None? { return Err(UNKNOWN_VARIABLE); }
        i, next := Instr.Push(v.value), pc + 2;
      } else if code[pc] == OP_PUSH_CONST_HASH {
        if pc + 32 >= |code| { return Err(MALFORMED); }
        i, next := Instr.Push(code[pc + 1..pc + 33]), pc + 33;
      } else if code[pc] == OP_EQ {
        i, next := Compare(true), pc + 1;
      } else if code[pc] == OP_NEQ {
        i, next := Compare(false), pc + 1;
      } else if code[pc] == OP_ASSERT {
        if pc + 1 >= |code| { return Err(MALFORMED); }
        i, next := Assert(code[pc + 1]), pc + 2;
      } else if code[pc] == OP_HALT_OK {
        return Ok(());
      } else {
        return Err(ILLEGAL_INSTRUCTION);
      }
      RemainingStep(code, pc, next, i, ctx, stack.Contents());
      var r := Execute(i, stack);
      if r.Err? { return r; }
      pc := next;
    }
    return Err(NO_HALT);
  }

  // ---------------------------------------------------------------- when access is granted

  /** The stack after the first `k` instructions, with no limit checks; None after an underflow. */
  ghost function StackAfter(body: seq<Instr>, k: nat): Option<seq<Hash>>
    requires k <= |body|
  {
    if k == 0 then Some([])
    else
      match StackAfter(body, k - 1)
      case None => None
      case Some(s) =>
        match body[k - 1]
        case Push(v) => Some(s + [v])
        case Compare(equal) =>
          if |s| < 2 then None
          else Some(s[..|s| - 2] + [BoolHash((s[|s| - 1] == s[|s| - 2]) == equal)])
        case Assert(_) => if |s| < 1 then None else Some(s[..|s| - 1])
  }

  /** Step `k` of the code neither underflows nor overflows, and passes if it is an assertion. */
  ghost predicate StepPasses(body: seq<Instr>, k: nat)
    requires k < |body|
  {
    && StackAfter(body, k + 1).Some?
    && |StackAfter(body, k + 1).value| <= STACK_DEPTH
    && (body[k].Assert? ==>
          StackAfter(body, k).Some? && StackAfter(body, k).value != [] &&
          var s := StackAfter(body, k).value;
          s[|s| - 1][0] != 0)
  }

  ghost predicate AllPass(body: seq<Instr>, from: nat) {
    forall k :: from <= k < |body| ==> StepPasses(body, k)
  }

  lemma {:induction false} RunFromStep(body: seq<Instr>, end: Verdict, k: nat)
    requires k <= |body|
    requires StackAfter(body, k).Some? && |StackAfter(body, k).value| <= STACK_DEPTH
    ensures RunCode(body[k..], end, StackAfter(body, k).value) == Ok(())
       <==> AllPass(body, k) && end == Ok(())
    decreases |body| - k
  {
    if k == |body| {
    } else {
      assert body[k..][0] == body[k] && body[k..][1..] == body[k + 1..];
      if StepPasses(body, k) {
        RunFromStep(body, end, k + 1);
      }
    }
  }

  /** Access is granted exactly when decoding ends in HALT_OK and every step before it passes. */
  lemma GrantedIff(code: Text, ctx: Context)
    ensures Check(code, ctx) == Ok(())
       <==> Decode(code, 0, ctx).end == Ok(()) && AllPass(Decode(code, 0, ctx).body, 0)
  {
    var p := Decode(code, 0, ctx);
    assert p.body[0..] == p.body;
    RunFromStep(p.body, p.end, 0);
  }

  lemma {:induction false} DecodeIgnoresSuffix(code: Text, suffix: Text, pc: nat, ctx: Context)
    requires pc <= |code|
    requires Decode(code, pc, ctx).end == Ok(())
    ensures Decode(code + suffix, pc, ctx) == Decode(code, pc, ctx)
    decreases |code| - pc
  {
    var long := code + suffix;
    if pc < |code| && code[pc] != OP_HALT_OK {
      if code[pc] == OP_PUSH_VAR || code[pc] == OP_ASSERT {
        DecodeIgnoresSuffix(code, suffix, pc + 2, ctx);
      } else if code[pc] == OP_PUSH_CONST_HASH {
        assert long[pc + 1..pc + 33] == code[pc + 1..pc + 33];
        DecodeIgnoresSuffix(code, suffix, pc + 33, ctx);
      } else {
        DecodeIgnoresSuffix(code, suffix, pc + 1, ctx);
      }
    }
  }

  /** A granted script stays granted whatever bytes follow it. */
  lemma GrantIgnoresSuffix(code: Text, suffix: Text, ctx: Context)
    requires Check(code, ctx) == Ok(())
    ensures Check(code + suffix, ctx) == Ok(())
  {
    GrantedIff(code, ctx);
    DecodeIgnoresSuffix(code, suffix, 0, ctx);
  }

  /** The fail-safe default: a script without a HALT_OK byte is never granted. */
  lemma {:induction false} NoHaltNoGrant(code: Text, pc: nat, ctx: Context)
    requires pc <= |code|
    requires OP_HALT_OK !in code[pc..]
    ensures Decode(code, pc, ctx).end != Ok(())
    decreases |code| - pc
  {
    if pc < |code| {
      assert code[pc] in code[pc..];
      forall j | pc <= j <= |code| ensures OP_HALT_OK !in code[j..] {
        assert forall b :: b in code[j..] ==> b in code[pc..];
      }
      if code[pc] == OP_PUSH_VAR || code[pc] == OP_ASSERT {
        if pc + 2 <= |code| { NoHaltNoGrant(code, pc + 2, ctx); }
      } else if code[pc] == OP_PUSH_CONST_HASH {
        if pc + 33 <= |code| { NoHaltNoGrant(code, pc + 33, ctx); }
      } else {
        NoHaltNoGrant(code, pc + 1, ctx);
      }
    }
  }

  /** The script forged by main.rs: requestor and owner variables compared, error 0x42, halt. */
  const VAULT_SCRIPT: Text :=
    [OP_PUSH_VAR, VAR_REQUESTOR, OP_PUSH_VAR, VAR_OWNER, OP_EQ, OP_ASSERT, 0x42, OP_HALT_OK]

  lemma VaultDecodes(ctx: Context)
    ensures Decode(VAULT_SCRIPT, 0, ctx)
         == Program([Push(ctx.requestor), Push(ctx.owner), Compare(true), Assert(0x42)], Ok(()))
  {
    var c := VAULT_SCRIPT;
    assert Decode(c, 7, ctx) == Program([], Ok(()));
    assert Decode(c, 5, ctx) == Program([Assert(0x42)], Ok(()));
    assert Decode(c, 4, ctx) == Program([Compare(true), Assert(0x42)], Ok(()));
    assert Decode(c, 2, ctx) == Program([Push(ctx.owner), Compare(true), Assert(0x42)], Ok(()));
  }

  lemma AssertRuns(flag: Hash)
    ensures RunCode([Assert(0x42)], Ok(()), [flag]) == if flag[0] == 0 then Err(0x42) else Ok(())
  {
    assert RunCode([Assert(0x42)][1..], Ok(()), [flag][..0]) == Ok(());
    assert StepStack(Assert(0x42), [flag]) == if flag[0] == 0 then Err(0x42) else Ok([flag][..0]);
  }

  /** It compares two values of the caller's context; the owner field of the file header plays no part. */
  lemma VaultScriptComparesContext(ctx: Context)
    ensures Check(VAULT_SCRIPT, ctx) == if ctx.requestor == ctx.owner then Ok(()) else Err(0x42)
  {
    VaultDecodes(ctx);
    var body := [Push(ctx.requestor), Push(ctx.owner), Compare(true), Assert(0x42)];
    assert body[1..] == [Push(ctx.owner), Compare(true), Assert(0x42)];
    assert body[1..][1..] == [Compare(true), Assert(0x42)];
    assert body[1..][1..][1..] == [Assert(0x42)];
    var two := [ctx.requestor, ctx.owner];
    assert [] + [ctx.requestor] + [ctx.owner] == two;
    assert two[..0] == [];
    var flag := BoolHash(ctx.requestor == ctx.owner);
    calc {
      RunCode(body, Ok(()), []);
      RunCode(body[1..], Ok(()), [] + [ctx.requestor]);
      RunCode(body[1..][1..], Ok(()), two);
      RunCode([Assert(0x42)], Ok(()), [flag]);
    }
    AssertRuns(flag);
  }
}
