/**
  What scripts mean, in their own bytes (kernel/src/mdo_vm.rs): every opcode, variable identifier and
  error code of the machine, stated on the byte string and the stack.
 */
module MdoScripts {
  import opened Bytes
  import opened MdoVm

  // ---------------------------------------------------------------- one byte at a time

  /** Pushing a value and going on at `next`; a stack of 32 values is full. */
  ghost function PushThen(code: Text, next: nat, ctx: Context, stack: seq<Hash>, v: Hash): Verdict
    requires next <= |code|
  {
    if |stack| >= 32 then Err(0xFD) else Remaining(code, next, ctx, stack + [v])
  }

  /** The end of the script without HALT_OK, HALT_OK itself, and bytes that are no opcode. */
  lemma EndOrHalt(code: Text, pc: nat, ctx: Context, stack: seq<Hash>)
    requires pc <= |code|
    ensures pc == |code| ==> Remaining(code, pc, ctx, stack) == Err(0xFB)
    ensures pc < |code| && code[pc] == 0x3F ==> Remaining(code, pc, ctx, stack) == Ok(())
    ensures pc < |code| && code[pc] !in {0x10, 0x11, 0x20, 0x21, 0x30, 0x3F} ==>
              Remaining(code, pc, ctx, stack) == Err(0xFC)
  {
  }

  /** 0x10: the four variables and their order; an integer is little-endian in the first four bytes. */
  lemma PushVariable(code: Text, pc: nat, ctx: Context, stack: seq<Hash>)
    requires pc < |code| && code[pc] == 0x10
    ensures Remaining(code, pc, ctx, stack) ==
            if pc + 1 == |code| then Err(0xFF)
            else if code[pc + 1] == 1 then PushThen(code, pc + 2, ctx, stack, ctx.requestor)
            else if code[pc + 1] == 2 then PushThen(code, pc + 2, ctx, stack, ctx.action)
            else if code[pc + 1] == 3 then PushThen(code, pc + 2, ctx, stack, ctx.owner)
            else if code[pc + 1] == 4 then PushThen(code, pc + 2, ctx, stack, LittleEndian(ctx.status, 4) + Zeros(28))
            else Err(0xFE)
  {
    if pc + 1 < |code| && Variable(code[pc + 1], ctx).Some? {
      RemainingStep(code, pc, pc + 2, Push(Variable(code[pc + 1], ctx).value), ctx, stack);
    }
  }

  /** 0x11: the 32 bytes that follow. */
  lemma PushConstant(code: Text, pc: nat, ctx: Context, stack: seq<Hash>)
    requires pc < |code| && code[pc] == 0x11
    ensures Remaining(code, pc, ctx, stack) ==
            if |code| < pc + 33 then Err(0xFF) else PushThen(code, pc + 33, ctx, stack, code[pc + 1..pc + 33])
  {
    if pc + 33 <= |code| {
      RemainingStep(code, pc, pc + 33, Push(code[pc + 1..pc + 33]), ctx, stack);
    }
  }

  /** 0x20 and 0x21: the two top values give way to 1 or 0, for equal and for different. */
  lemma CompareTop(code: Text, pc: nat, ctx: Context, stack: seq<Hash>)
    requires pc < |code| && code[pc] in {0x20, 0x21}
    ensures var n := |stack|;
            Remaining(code, pc, ctx, stack) ==
            if n < 2 then Err(0xFD)
            else
              var holds := if code[pc] == 0x20 then stack[n - 1] == stack[n - 2] else stack[n - 1] != stack[n - 2];
              Remaining(code, pc + 1, ctx, stack[..n - 2] + [[if holds then 1 else 0] + Zeros(31)])
  {
    RemainingStep(code, pc, pc + 1, Compare(code[pc] == 0x20), ctx, stack);
  }

  /** 0x30: the top value is taken, and stops the script with the next byte if it begins with 0. */
  lemma AssertTop(code: Text, pc: nat, ctx: Context, stack: seq<Hash>)
    requires pc < |code| && code[pc] == 0x30
    ensures var n := |stack|;
            Remaining(code, pc, ctx, stack) ==
            if pc + 1 == |code| then Err(0xFF)
            else if n == 0 then Err(0xFD)
            else if stack[n - 1][0] == 0 then Err(code[pc + 1])
            else Remaining(code, pc + 2, ctx, stack[..n - 1])
  {
    if pc + 1 < |code| {
      RemainingStep(code, pc, pc + 2, Assert(code[pc + 1]), ctx, stack);
    }
  }

  // ---------------------------------------------------------------- whole scripts

  /** A script that has pushed two values and ends in a comparison, an assertion and HALT_OK. */
  lemma CompareAndHalt(code: Text, pc: nat, ctx: Context, a: Hash, b: Hash, c: byte)
    requires pc + 4 == |code|
    requires code[pc] in {0x20, 0x21} && code[pc + 1..] == [0x30, c, 0x3F]
    ensures Remaining(code, pc, ctx, [a, b])
         == if (code[pc] == 0x20) == (a == b) then Ok(()) else Err(c)
  {
    assert code[pc + 1] == code[pc + 1..][0] && code[pc + 2] == code[pc + 1..][1] && code[pc + 3] == code[pc + 1..][2];
    CompareTop(code, pc, ctx, [a, b]);
    var flag: Hash := [if (code[pc] == 0x20) == (a == b) then 1 else 0] + Zeros(31);
    assert [a, b][..0] + [flag] == [flag];
    AssertTop(code, pc + 1, ctx, [flag]);
    EndOrHalt(code, pc + 3, ctx, [flag][..0]);
  }

  /** Comparing two constants: 0x20 grants when they are equal, 0x21 when they differ. */
  lemma CompareConstants(x: Hash, y: Hash, op: byte, c: byte, ctx: Context)
    requires op in {0x20, 0x21}
    ensures Check([0x11] + x + [0x11] + y + [op, 0x30, c, 0x3F], ctx)
         == if (op == 0x20) == (x == y) then Ok(()) else Err(c)
  {
    var code := [0x11] + x + [0x11] + y + [op, 0x30, c, 0x3F];
    assert code[1..33] == x && code[34..66] == y;
    assert code[67..] == [0x30, c, 0x3F];
    PushConstant(code, 0, ctx, []);
    PushConstant(code, 33, ctx, [x]);
    assert [] + [x] == [x] && [x] + [y] == [x, y];
    CompareAndHalt(code, 66, ctx, x, y, c);
  }

  /** What variable v stands for. */
  function VariableValue(v: byte, ctx: Context): Hash
    requires 1 <= v <= 4
  {
    if v == 1 then ctx.requestor
    else if v == 2 then ctx.action
    else if v == 3 then ctx.owner
    else LittleEndian(ctx.status, 4) + Zeros(28)
  }

  /** Comparing a variable with a constant. */
  lemma CompareVariable(v: byte, h: Hash, op: byte, c: byte, ctx: Context)
    requires 1 <= v <= 4 && op in {0x20, 0x21}
    ensures Check([0x10, v, 0x11] + h + [op, 0x30, c, 0x3F], ctx)
         == if (op == 0x20) == (VariableValue(v, ctx) == h) then Ok(()) else Err(c)
  {
    var code := [0x10, v, 0x11] + h + [op, 0x30, c, 0x3F];
    var x := VariableValue(v, ctx);
    assert code[3..35] == h;
    assert code[36..] == [0x30, c, 0x3F];
    PushVariable(code, 0, ctx, []);
    PushConstant(code, 2, ctx, [x]);
    assert [] + [x] == [x] && [x] + [h] == [x, h];
    CompareAndHalt(code, 35, ctx, x, h, c);
  }

  /** Comparing two variables, as the vault script does. */
  lemma CompareVariables(v: byte, w: byte, op: byte, c: byte, ctx: Context)
    requires 1 <= v <= 4 && 1 <= w <= 4 && op in {0x20, 0x21}
    ensures Check([0x10, v, 0x10, w, op, 0x30, c, 0x3F], ctx)
         == if (op == 0x20) == (VariableValue(v, ctx) == VariableValue(w, ctx)) then Ok(()) else Err(c)
  {
    var code := [0x10, v, 0x10, w, op, 0x30, c, 0x3F];
    var x, y := VariableValue(v, ctx), VariableValue(w, ctx);
    assert code[5..] == [0x30, c, 0x3F];
    PushVariable(code, 0, ctx, []);
    PushVariable(code, 2, ctx, [x]);
    assert [] + [x] == [x] && [x] + [y] == [x, y];
    CompareAndHalt(code, 4, ctx, x, y, c);
  }

  function Pushes(hs: seq<Hash>): Text {
    if hs == [] then [] else Pushes(hs[..|hs| - 1]) + [0x11] + hs[|hs| - 1]
  }

  lemma {:induction false} PushesLength(hs: seq<Hash>)
    ensures |Pushes(hs)| == 33 * |hs|
  {
    if hs == [] {
    } else {
      PushesLength(hs[..|hs| - 1]);
    }
  }

  /** The machine after any number of constants: they are the stack, or one too many was pushed. */
  lemma {:induction false} PushesRun(hs: seq<Hash>, rest: Text, ctx: Context)
    ensures var code := Pushes(hs) + rest;
            && |Pushes(hs)| == 33 * |hs|
            && Check(code, ctx) == if |hs| <= 32 then Remaining(code, 33 * |hs|, ctx, hs) else Err(0xFD)
  {
    PushesLength(hs);
    if hs == [] {
    } else {
      var init, h := hs[..|hs| - 1], hs[|hs| - 1];
      PushesLength(init);
      PushesRun(init, [0x11] + h + rest, ctx);
      var code := Pushes(hs) + rest;
      assert code == Pushes(init) + ([0x11] + h + rest);
      var pc := 33 * |init|;
      assert code[pc] == 0x11 && code[pc + 1..pc + 33] == h;
      PushConstant(code, pc, ctx, init);
      assert init + [h] == hs;
    }
  }

  /** Any 32 constants fit, a 33rd does not, whatever follows. */
  lemma StackHolds32(hs: seq<Hash>, ctx: Context)
    ensures Check(Pushes(hs) + [0x3F], ctx) == if |hs| <= 32 then Ok(()) else Err(0xFD)
  {
    PushesRun(hs, [0x3F], ctx);
    if |hs| <= 32 {
      EndOrHalt(Pushes(hs) + [0x3F], 33 * |hs|, ctx, hs);
    }
  }
}
