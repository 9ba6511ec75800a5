/** Programs of the example VM, of the kind that the repository's own are: what they return, store, and pass to a
    callee, on any host and over call trees. */
module ExampleVmPrograms {
  import opened Bits
  import opened Words
  import opened Results
  import opened Instructions
  import opened ExampleVm
  import opened ExampleVmMemory
  import opened ExampleVmExpressions

  // ---------- memory and operands ----------

  /** The region is within the memory. */
  predicate Within(offset: nat, size: nat) {
    offset + size <= 1024
  }

  /** The memory with v at the offset. */
  function Patched(m: seq<byte>, offset: nat, v: seq<byte>): (p: seq<byte>)
    requires offset + |v| <= |m|
    ensures |p| == |m|
  {
    m[..offset] + v + m[offset + |v|..]
  }

  function Offset(n: uint32): word {
    ToUint512(n)
  }

  lemma OffsetReads(n: uint32)
    ensures ToUint32(Offset(n)) == n
  {
    hide ToUint32, ToUint512, Value;
    ToUint512Value(n);
  }

  /** The word of a boolean. */
  function FlagWord(flag: bool): word {
    Zeros(63) + [if flag then 1 else 0]
  }

  lemma FlagWordValue(flag: bool)
    ensures Value(FlagWord(flag)) == (if flag then 1 else 0)
    ensures FlagWord(flag) == ToUint512(if flag then 1 else 0)
  {
    hide Value, Zeros, ToUint512, ToUint32;
    var b: byte := if flag then 1 else 0;
    LeadingZeros(63, [b]);
    ValueOfByte(b);
    ToUint512Value(b);
    ValueInjective(FlagWord(flag), ToUint512(b));
  }

  lemma Dispatch<C>(h: Host<C>, msg: Message, code: seq<byte>, f: Frame<C>, op: byte)
    requires Has(code, f.pc, [op])
    ensures f.pc < |code|
    ensures op == OP_STOP ==> Exec(h, msg, code, f) == Halt(f, Result(Success, f.gas, 0, [], false))
    ensures op == OP_MSTORE ==> Exec(h, msg, code, f) == AfterMstore(f)
    ensures op == OP_SSTORE ==> Exec(h, msg, code, f) == AfterSstore(h, msg, f)
    ensures op == OP_CALL ==> Exec(h, msg, code, f) == AfterCall(h, msg, f)
    ensures op == OP_RETURN ==> Exec(h, msg, code, f) == AfterReturn(h, f, Success)
    ensures op == OP_REVERT ==> Exec(h, msg, code, f) == AfterReturn(h, f, Revert)
  {
    hide AfterMstore, AfterSstore, AfterCall, AfterReturn;
    assert code[f.pc] == code[f.pc..f.pc + 1][0];
  }

  // ---------- storing what is on top of the stack ----------

  /** The code of mstore(at, ..) after its operand. */
  function StoreTop(at: uint32): seq<byte> {
    Pushes([Offset(at)]) + [OP_MSTORE]
  }

  lemma MstoreRuns<C>(f: Frame<C>, at: uint32)
    requires |f.stack| >= 2 && Top(f, 0) == Offset(at)
    ensures var s := AfterMstore(f);
      if Within(at, 64) then
        && s.Next? && s.f.pc == f.pc + 1 && s.f.gas == f.gas && s.f.ctx == f.ctx
        && s.f.stack == f.stack[..|f.stack| - 2]
        && s.f.mem.data == Patched(f.mem.data, at, Top(f, 1))
      else s == Halt(f, Failed(Failure))
  {
    hide ToUint32, Offset, Zeros;
    OffsetReads(at);
  }

  lemma TopStored<C>(h: Host<C>, msg: Message, code: seq<byte>, f: Frame<C>, at: uint32) returns (g: Frame<C>)
    requires Has(code, f.pc, StoreTop(at)) && f.gas >= 2 && 1 <= |f.stack| < STACK_LIMIT && Within(at, 64)
    ensures Run(h, msg, code, f) == Run(h, msg, code, g)
    ensures g.pc == f.pc + |StoreTop(at)| && g.gas == f.gas - 2 && g.ctx == f.ctx
    ensures g.stack == f.stack[..|f.stack| - 1] && g.mem.data == Patched(f.mem.data, at, Top(f, 0))
  {
    hide Run, Has, Pushes, Exec, AfterMstore, Offset, Patched;
    HasParts(code, f.pc, Pushes([Offset(at)]), [OP_MSTORE]);
    g := PushesEvaluate(h, msg, code, f, [Offset(at)]);
    Dispatch(h, msg, code, Charged(g), OP_MSTORE);
    MstoreRuns(Charged(g), at);
    assert g.stack[..|g.stack| - 2] == f.stack[..|f.stack| - 1];
    g := Advance(h, msg, code, g);
  }

  lemma TopNotStored<C>(h: Host<C>, msg: Message, code: seq<byte>, f: Frame<C>, at: uint32)
    requires Has(code, f.pc, StoreTop(at)) && 1 <= |f.stack| < STACK_LIMIT
    requires f.gas < 2 || !Within(at, 64)
    ensures var o := Run(h, msg, code, f);
      o.f.ctx == f.ctx && o.result == Failed(if f.gas < 2 then OutOfGas else Failure)
  {
    hide Run, Has, Pushes, Exec, AfterMstore, Offset;
    HasParts(code, f.pc, Pushes([Offset(at)]), [OP_MSTORE]);
    if f.gas < 2 {
      HasMore(code, f.pc, Pushes([Offset(at)]), [OP_MSTORE]);
      PushesStarve(h, msg, code, f, [Offset(at)]);
    } else {
      var g := PushesEvaluate(h, msg, code, f, [Offset(at)]);
      Dispatch(h, msg, code, Charged(g), OP_MSTORE);
      MstoreRuns(Charged(g), at);
      RunUnfolds(h, msg, code, g);
    }
  }

  lemma HasMore(code: seq<byte>, pc: nat, a: seq<byte>, b: seq<byte>)
    requires Has(code, pc, a + b) && b != []
    ensures pc + |a| < |code|
  {
  }

  // ---------- ending ----------

  /** return(from, size) or revert(from, size) */
  datatype Ending = Ending(reverts: bool, from: uint32, size: uint32)

  function EndCode(end: Ending): seq<byte> {
    Pushes([Offset(end.size), Offset(end.from)]) + [if end.reverts then OP_REVERT else OP_RETURN]
  }

  /** The result with the region of the memory as output. */
  function EndResult(end: Ending, gas: Gas, data: seq<byte>, granted: bool): Result
    requires |data| == 1024
  {
    if !Within(end.from, end.size) then Failed(Failure) else
      Made(if end.reverts then Revert else Success, gas, 0, Some(data[end.from..end.from + end.size]), end.size,
           granted)
  }

  lemma RegionReturned<C>(h: Host<C>, f: Frame<C>, end: Ending)
    requires |f.stack| >= 2 && Top(f, 0) == Offset(end.from) && Top(f, 1) == Offset(end.size)
    ensures var s := AfterReturn(h, f, if end.reverts then Revert else Success);
      && s.Halt? && s.f.ctx == f.ctx
      && s.result == EndResult(end, f.gas, f.mem.data, h.allocates(f.ctx, end.size))
  {
    hide ToUint32, Offset, Made, Zeros;
    OffsetReads(end.from);
    OffsetReads(end.size);
  }

  lemma Ended<C>(h: Host<C>, msg: Message, code: seq<byte>, f: Frame<C>, end: Ending)
    requires Has(code, f.pc, EndCode(end)) && |f.stack| + 2 <= STACK_LIMIT
    ensures var o := Run(h, msg, code, f);
      && o.f.ctx == f.ctx
      && o.result ==
           if f.gas < 3 then Failed(OutOfGas)
           else EndResult(end, f.gas - 3, f.mem.data, h.allocates(f.ctx, end.size))
  {
    hide Run, Has, Pushes, Exec, AfterReturn, EndResult, Offset;
    var ws, op := [Offset(end.size), Offset(end.from)], if end.reverts then OP_REVERT else OP_RETURN;
    HasParts(code, f.pc, Pushes(ws), [op]);
    if f.gas < 3 {
      HasMore(code, f.pc, Pushes(ws), [op]);
      PushesStarve(h, msg, code, f, ws);
    } else {
      var g := PushesEvaluate(h, msg, code, f, ws);
      Dispatch(h, msg, code, Charged(g), op);
      RegionReturned(h, Charged(g), end);
      RunUnfolds(h, msg, code, g);
    }
  }

  /** What is left to do once a word is on the stack: mstore(at, ..) return(from, size), or revert. */
  function StoreAndEnd(at: uint32, end: Ending): seq<byte> {
    StoreTop(at) + EndCode(end)
  }

  function StoreAndEndResult(at: uint32, end: Ending, gas: Gas, data: seq<byte>, w: word, granted: bool): Result
    requires |data| == 1024
  {
    if gas < 2 then Failed(OutOfGas)
    else if !Within(at, 64) then Failed(Failure)
    else if gas < 5 then Failed(OutOfGas)
    else EndResult(end, gas - 5, Patched(data, at, w), granted)
  }

  lemma StoredAndEnded<C>(h: Host<C>, msg: Message, code: seq<byte>, f: Frame<C>, at: uint32, end: Ending)
    requires Has(code, f.pc, StoreAndEnd(at, end)) && 1 <= |f.stack| < STACK_LIMIT
    ensures var o := Run(h, msg, code, f);
      && o.f.ctx == f.ctx
      && o.result == StoreAndEndResult(at, end, f.gas, f.mem.data, Top(f, 0), h.allocates(f.ctx, end.size))
  {
    hide Run, Has, StoreTop, EndCode, EndResult, Patched;
    HasParts(code, f.pc, StoreTop(at), EndCode(end));
    if f.gas < 2 || !Within(at, 64) {
      TopNotStored(h, msg, code, f, at);
    } else {
      var g := TopStored(h, msg, code, f, at);
      Ended(h, msg, code, g, end);
    }
  }

  // ---------- programs without calls ----------

  const EMPTY: seq<byte> := Zeros(1024)

  /** mstore(at, e) return(from, size), or revert. */
  function ReturnProgram(e: Expr, at: uint32, end: Ending): seq<byte> {
    Code(e) + StoreAndEnd(at, end)
  }

  function ReturnResult(e: Expr, at: uint32, end: Ending, gas: int64, w: word, granted: bool): Result {
    if gas < Cost(e) then Failed(OutOfGas) else StoreAndEndResult(at, end, gas - Cost(e), EMPTY, w, granted)
  }

  /** The program returns the region of a memory that is zero but for the expression's value, with SUCCESS or REVERT
      and exactly the gas left over; it fails when a region is not within the memory, and without enough gas. */
  lemma ReturnsValue<C>(h: Host<C>, ctx: C, msg: Message, e: Expr, at: uint32, end: Ending)
    requires Room(e) <= STACK_LIMIT
    ensures
      var (o, (ctx', w)) := (Execute(h, ctx, msg, ReturnProgram(e, at, end)), Eval(h, msg, 0, ctx, e));
      && (msg.gas >= Cost(e) ==> o.f.ctx == ctx')
      && o.result == ReturnResult(e, at, end, msg.gas, w, h.allocates(ctx', end.size))
  {
    hide Run, ReturnProgram, StoreAndEndResult, Eval, Zeros;
    if msg.gas >= 0 {
      ReturnProgramRuns(h, msg, Start(ctx, msg.gas), e, at, end);
    }
  }

  lemma ReturnProgramRuns<C>(h: Host<C>, msg: Message, f: Frame<C>, e: Expr, at: uint32, end: Ending)
    requires f.pc == 0 && f.stack == [] && f.mem.data == EMPTY && Room(e) <= STACK_LIMIT
    ensures
      var (o, (ctx', w)) := (Run(h, msg, ReturnProgram(e, at, end), f), Eval(h, msg, f.mem.size, f.ctx, e));
      && (f.gas >= Cost(e) ==> o.f.ctx == ctx')
      && o.result == ReturnResult(e, at, end, f.gas, w, h.allocates(ctx', end.size))
  {
    hide Run, StoreAndEnd, StoreAndEndResult, Eval, Zeros, Has, Code, Failed;
    var code := ReturnProgram(e, at, end);
    HasAll(code);
    HasParts(code, 0, Code(e), StoreAndEnd(at, end));
    if f.gas < Cost(e) {
      hide ReturnProgram;
      CodeStarves(h, msg, code, f, e);
    } else {
      var g := CodeEvaluates(h, msg, code, f, e);
      hide ReturnProgram;
      StoredAndEnded(h, msg, code, g, at, end);
      assert Top(g, 0) == Eval(h, msg, f.mem.size, f.ctx, e).1;
    }
  }

  /** An expression, stop(), and any code after it. */
  function StopProgram(e: Expr, rest: seq<byte>): seq<byte> {
    Code(e) + ([OP_STOP] + rest)
  }

  /** It ends there, with SUCCESS, no output and exactly the gas left over. */
  lemma Stops<C>(h: Host<C>, ctx: C, msg: Message, e: Expr, rest: seq<byte>)
    requires Room(e) <= STACK_LIMIT
    ensures
      var o := Execute(h, ctx, msg, StopProgram(e, rest));
      if msg.gas < Cost(e) + 1 then o.result == Failed(OutOfGas)
      else
        && o.f.ctx == Eval(h, msg, 0, ctx, e).0
        && o.result == Result(Success, msg.gas - Cost(e) - 1, 0, [], false)
  {
    hide Run, StopProgram, Eval, Zeros;
    if msg.gas >= 0 {
      StopProgramRuns(h, msg, Start(ctx, msg.gas), e, rest);
    }
  }

  lemma StopProgramRuns<C>(h: Host<C>, msg: Message, f: Frame<C>, e: Expr, rest: seq<byte>)
    requires f.pc == 0 && f.stack == [] && Room(e) <= STACK_LIMIT
    ensures
      var o := Run(h, msg, StopProgram(e, rest), f);
      if f.gas < Cost(e) + 1 then o.result == Failed(OutOfGas)
      else
        && o.f.ctx == Eval(h, msg, f.mem.size, f.ctx, e).0
        && o.result == Result(Success, f.gas - Cost(e) - 1, 0, [], false)
  {
    hide Run, Eval, Zeros, Has, Code, Exec;
    var code := StopProgram(e, rest);
    HasAll(code);
    HasParts(code, 0, Code(e), [OP_STOP] + rest);
    HasMore(code, 0, Code(e), [OP_STOP] + rest);
    HasParts(code, |Code(e)|, [OP_STOP], rest);
    if f.gas < Cost(e) + 1 {
      CodeThenStarves(h, msg, code, f, e);
    } else {
      var g := CodeEvaluates(h, msg, code, f, e);
      Dispatch(h, msg, code, Charged(g), OP_STOP);
      RunUnfolds(h, msg, code, g);
    }
  }

  /** sstore(key, value) */
  function SstoreProgram(key: Expr, value: Expr): seq<byte> {
    Code(value) + Code(key) + [OP_SSTORE]
  }

  lemma SstoreEnds<C>(h: Host<C>, msg: Message, code: seq<byte>, f: Frame<C>, key: word, value: word)
    requires Has(code, f.pc, [OP_SSTORE]) && f.pc + 1 == |code| && f.gas >= 1 && f.stack == [value, key]
    ensures var o := Run(h, msg, code, f);
      if Static(msg) then o.f.ctx == f.ctx && o.result == Failed(StaticModeViolation)
      else
        && o.f.ctx == h.setStorage(f.ctx, msg.recipient, key, value)
        && o.result == Made(Success, f.gas - 1, 0, None, 0, true)
  {
    hide Exec;
    Dispatch(h, msg, code, Charged(f), OP_SSTORE);
    RunUnfolds(h, msg, code, f);
  }

  /** The program that stores an expression's value stores it under the key, and nothing in static mode, if there is
      enough gas, and otherwise runs out of it. */
  lemma StoresValue<C>(h: Host<C>, ctx: C, msg: Message, key: Expr, value: Expr)
    requires Room(value) <= STACK_LIMIT && Room(key) < STACK_LIMIT
    ensures
      var o := Execute(h, ctx, msg, SstoreProgram(key, value));
      var (ctx1, v) := Eval(h, msg, 0, ctx, value);
      var (ctx2, k) := Eval(h, msg, 0, ctx1, key);
      if msg.gas < Cost(key) + Cost(value) + 1 then o.result == Failed(OutOfGas)
      else if Static(msg) then o.f.ctx == ctx2 && o.result == Failed(StaticModeViolation)
      else
        && o.f.ctx == h.setStorage(ctx2, msg.recipient, k, v)
        && o.result == Made(Success, msg.gas - Cost(key) - Cost(value) - 1, 0, None, 0, true)
  {
    if msg.gas >= Cost(key) + Cost(value) + 1 {
      hide Execute, SstoreProgram, Eval, Static, Failed, Made;
      StoresWithGas(h, ctx, msg, key, value);
    } else if msg.gas >= 0 {
      hide Run, SstoreProgram, Eval, Zeros, Static, Failed, Made;
      SstoreProgramStarves(h, msg, Start(ctx, msg.gas), key, value);
    }
  }

  lemma SstoreProgramStarves<C>(h: Host<C>, msg: Message, f: Frame<C>, key: Expr, value: Expr)
    requires f.pc == 0 && f.stack == [] && f.gas <= Cost(key) + Cost(value)
    requires Room(value) <= STACK_LIMIT && Room(key) < STACK_LIMIT
    ensures Run(h, msg, SstoreProgram(key, value), f).result == Failed(OutOfGas)
  {
    hide Run, Code, Eval, Has;
    var code := SstoreProgram(key, value);
    HasAll(code);
    HasParts(code, 0, Code(value) + Code(key), [OP_SSTORE]);
    PairStarves(h, msg, code, f, value, key);
  }

  lemma StoresWithGas<C>(h: Host<C>, ctx: C, msg: Message, key: Expr, value: Expr)
    requires Room(value) <= STACK_LIMIT && Room(key) < STACK_LIMIT
    requires msg.gas >= Cost(key) + Cost(value) + 1
    ensures
      var o := Execute(h, ctx, msg, SstoreProgram(key, value));
      var (ctx1, v) := Eval(h, msg, 0, ctx, value);
      var (ctx2, k) := Eval(h, msg, 0, ctx1, key);
      if Static(msg) then o.f.ctx == ctx2 && o.result == Failed(StaticModeViolation)
      else
        && o.f.ctx == h.setStorage(ctx2, msg.recipient, k, v)
        && o.result == Made(Success, msg.gas - Cost(key) - Cost(value) - 1, 0, None, 0, true)
  {
    hide Run, Code, Eval, Zeros, Has, Static, Failed, Made;
    var code, f := SstoreProgram(key, value), Start(ctx, msg.gas);
    HasAll(code);
    HasParts(code, 0, Code(value) + Code(key), [OP_SSTORE]);
    var g := PairEvaluates(h, msg, code, f, value, key);
    SstoreEnds(h, msg, code, g, g.stack[1], g.stack[0]);
  }

  lemma PairStarves<C>(h: Host<C>, msg: Message, code: seq<byte>, f: Frame<C>, e: Expr, e': Expr)
    requires Has(code, f.pc, Code(e) + Code(e')) && f.pc + |Code(e) + Code(e')| < |code|
    requires f.gas <= Cost(e) + Cost(e') && f.stack == [] && Room(e) <= STACK_LIMIT && Room(e') < STACK_LIMIT
    ensures Run(h, msg, code, f).result == Failed(OutOfGas)
  {
    hide Run, Code, Eval, Zeros, Has;
    HasParts(code, f.pc, Code(e), Code(e'));
    if f.gas < Cost(e) {
      CodeStarves(h, msg, code, f, e);
    } else {
      var g := CodeEvaluates(h, msg, code, f, e);
      CodeThenStarves(h, msg, code, g, e');
    }
  }

  /** Two expressions one after the other. */
  lemma PairEvaluates<C>(h: Host<C>, msg: Message, code: seq<byte>, f: Frame<C>, e: Expr, e': Expr)
    returns (g: Frame<C>)
    requires Has(code, f.pc, Code(e) + Code(e')) && f.gas >= Cost(e) + Cost(e') && f.stack == []
    requires Room(e) <= STACK_LIMIT && Room(e') < STACK_LIMIT
    ensures Run(h, msg, code, f) == Run(h, msg, code, g)
    ensures g.pc == f.pc + |Code(e)| + |Code(e')| && g.gas == f.gas - Cost(e) - Cost(e')
    ensures
      var (ctx1, w) := Eval(h, msg, f.mem.size, f.ctx, e);
      var (ctx2, w') := Eval(h, msg, f.mem.size, ctx1, e');
      g.ctx == ctx2 && g.stack == [w, w']
  {
    hide Run, Code, Eval, Zeros, Has;
    HasParts(code, f.pc, Code(e), Code(e'));
    var g1 := CodeEvaluates(h, msg, code, f, e);
    g := CodeEvaluates(h, msg, code, g1, e');
  }

  // ---------- calls ----------

  /** call(gas, callee, value, inOffset, inSize, outOffset, outSize) */
  datatype CallSpec = CallSpec(gas: word, callee: word, value: word,
                               inOffset: uint32, inSize: uint32, outOffset: uint32, outSize: uint32)

  function CallArguments(c: CallSpec): seq<word> {
    [Offset(c.outSize), Offset(c.outOffset), Offset(c.inSize), Offset(c.inOffset), c.value, c.callee, c.gas]
  }

  /** The gas of the call: what is asked for, or all that is left. */
  ghost function Granted(gas: word, left: Gas): (granted: Gas)
    ensures granted <= left
  {
    Min(Value(gas) % 0x1_0000_0000, left)
  }

  /** The gas after the call: what was not granted, and what is given back of what was. */
  function Kept(left: Gas, granted: Gas, r: Result): (kept: Gas)
    requires granted <= left
  {
    left - granted + if r.gasLeft < 0 then 0 else if r.gasLeft > granted then granted else r.gasLeft
  }

  /** What the callee receives from a frame with this message and memory. */
  function Passing(msg: Message, c: CallSpec, granted: Gas, data: seq<byte>): Message
    requires msg.depth < 1024 && |data| == 1024 && Within(c.inOffset, c.inSize)
  {
    Message(msg.flags, msg.depth + 1, granted, c.callee, msg.recipient, data[c.inOffset..c.inOffset + c.inSize],
            c.value, c.callee)
  }

  /** The memory after the reply: the output, as far as it and the region go. */
  function Replied(c: CallSpec, data: seq<byte>, output: seq<byte>): (data': seq<byte>)
    requires |data| == 1024 && Within(c.outOffset, c.outSize)
    ensures |data'| == 1024
  {
    Patched(data, c.outOffset, if |output| < c.outSize then output else output[..c.outSize])
  }

  /** Whether the call is made, and why it is refused. */
  function Refusal(msg: Message, c: CallSpec): Option<Status> {
    if msg.depth >= 1024 then Some(CallDepthExceeded)
    else if Static(msg) && c.value != ZERO then Some(StaticModeViolation)
    else if !Within(c.inOffset, c.inSize) || !Within(c.outOffset, c.outSize) then Some(Failure)
    else None
  }

  lemma CallReaches<C>(h: Host<C>, msg: Message, f: Frame<C>, c: CallSpec) returns (f': Frame<C>)
    requires f.stack == CallArguments(c)
    ensures Refusal(msg, c).Some? ==> AfterCall(h, msg, f) == Halt(f, Failed(Refusal(msg, c).value))
    ensures Refusal(msg, c).None? ==>
      var call := Passing(msg, c, Granted(c.gas, f.gas), f.mem.data);
      && f'.stack == f.stack && f'.mem.data == f.mem.data
      && f'.pc == f.pc && f'.gas == f.gas && f'.ctx == f.ctx
      && AfterCall(h, msg, f) == AfterReply(f', call, h.call(f.ctx, call), c.outOffset, c.outSize)
  {
    hide AfterReply, ToUint32, Offset, Value, Zeros;
    OffsetReads(c.inOffset);
    OffsetReads(c.inSize);
    OffsetReads(c.outOffset);
    OffsetReads(c.outSize);
    ToUint32Value(c.gas);
    f' := f;
    if Refusal(msg, c).None? {
      f' := f.(mem := Expanded(Expanded(f.mem, c.inOffset, c.inSize), c.outOffset, c.outSize),
               ends := f.ends + [c.inOffset + c.inSize, c.outOffset + c.outSize]);
    }
    assert Top(f, 3) == Offset(c.inOffset) && Top(f, 4) == Offset(c.inSize);
    assert Top(f, 5) == Offset(c.outOffset) && Top(f, 6) == Offset(c.outSize);
  }

  lemma ReplyTaken<C>(f: Frame<C>, c: CallSpec, call: Message, reply: (C, Result))
    requires |f.stack| == 7 && 0 <= call.gas <= f.gas && Within(c.outOffset, c.outSize)
    ensures var s := AfterReply(f, call, reply, c.outOffset, c.outSize);
      && s.Next?
      && s.f.ctx == reply.0 && s.f.pc == f.pc + 1 && s.f.gas == Kept(f.gas, call.gas, reply.1)
      && s.f.stack == [FlagWord(reply.1.status == Success)]
      && s.f.mem.data == Replied(c, f.mem.data, reply.1.output)
  {
    hide ToUint512, FlagWord, Zeros;
    FlagWordValue(reply.1.status == Success);
    assert f.stack[..0] == [];
    assert reply.1.output[..|reply.1.output|] == reply.1.output;
  }

  lemma Calls<C>(h: Host<C>, msg: Message, code: seq<byte>, f: Frame<C>, c: CallSpec) returns (g: Frame<C>)
    requires Has(code, f.pc, [OP_CALL]) && f.gas >= 1 && f.stack == CallArguments(c) && Refusal(msg, c).None?
    ensures Run(h, msg, code, f) == Run(h, msg, code, g)
    ensures
      var granted := Granted(c.gas, f.gas - 1);
      var (ctx', r) := h.call(f.ctx, Passing(msg, c, granted, f.mem.data));
      && g.ctx == ctx' && g.pc == f.pc + 1 && g.gas == Kept(f.gas - 1, granted, r)
      && g.stack == [FlagWord(r.status == Success)] && g.mem.data == Replied(c, f.mem.data, r.output)
  {
    hide Exec, Run, AfterCall, AfterReply, Granted, FlagWord, Replied, Kept, Offset, Zeros;
    Dispatch(h, msg, code, Charged(f), OP_CALL);
    var f' := CallReaches(h, msg, Charged(f), c);
    var call := Passing(msg, c, Granted(c.gas, f.gas - 1), f.mem.data);
    ReplyTaken(f', c, call, h.call(f.ctx, call));
    g := Advance(h, msg, code, f);
  }

  /** mstore(at, e) mstore(flagAt, call(..)) return(from, size), or revert. */
  datatype Caller = Caller(e: Expr, at: uint32, call: CallSpec, flagAt: uint32, end: Ending)

  function CallProgram(p: Caller): seq<byte> {
    Code(p.e) + (StoreTop(p.at) + (Pushes(CallArguments(p.call)) + ([OP_CALL] + StoreAndEnd(p.flagAt, p.end))))
  }

  /** The instructions up to and including the call. */
  function CostToCall(p: Caller): nat {
    Cost(p.e) + 10
  }

  /** A run of the program to its call. */
  lemma CallReady<C>(h: Host<C>, ctx: C, msg: Message, p: Caller) returns (f: Frame<C>)
    requires Room(p.e) <= STACK_LIMIT && msg.gas >= CostToCall(p) && Within(p.at, 64)
    ensures Run(h, msg, CallProgram(p), Start(ctx, msg.gas)) == Run(h, msg, CallProgram(p), f)
    ensures Has(CallProgram(p), f.pc, [OP_CALL])
    ensures Has(CallProgram(p), f.pc + 1, StoreAndEnd(p.flagAt, p.end))
    ensures f.stack == CallArguments(p.call) && f.gas == msg.gas - CostToCall(p) + 1
    ensures var (ctx', w) := Eval(h, msg, 0, ctx, p.e);
      f.ctx == ctx' && f.mem.data == Patched(EMPTY, p.at, w)
  {
    hide Run, StoreTop, StoreAndEnd, Pushes, Eval, Zeros, Has, Code, Patched, Offset;
    var code, arguments := CallProgram(p), CallArguments(p.call);
    var afterCall := [OP_CALL] + StoreAndEnd(p.flagAt, p.end);
    HasAll(code);
    HasParts(code, 0, Code(p.e), StoreTop(p.at) + (Pushes(arguments) + afterCall));
    f := CodeEvaluates(h, msg, code, Start(ctx, msg.gas), p.e);
    HasParts(code, f.pc, StoreTop(p.at), Pushes(arguments) + afterCall);
    f := TopStored(h, msg, code, f, p.at);
    HasParts(code, f.pc, Pushes(arguments), afterCall);
    f := PushesEvaluate(h, msg, code, f, arguments);
    HasParts(code, f.pc, [OP_CALL], StoreAndEnd(p.flagAt, p.end));
  }

  /** A refused call ends the frame with the reason, and the host is not called. */
  lemma CallRefused<C>(h: Host<C>, ctx: C, msg: Message, p: Caller)
    requires Room(p.e) <= STACK_LIMIT && msg.gas >= CostToCall(p) && Within(p.at, 64) && Refusal(msg, p.call).Some?
    ensures var o := Execute(h, ctx, msg, CallProgram(p));
      o.f.ctx == Eval(h, msg, 0, ctx, p.e).0 && o.result == Failed(Refusal(msg, p.call).value)
  {
    hide Run, Exec, AfterCall, Eval, CallProgram, CallArguments, Refusal, Patched, Has;
    var f := CallReady(h, ctx, msg, p);
    Dispatch(h, msg, CallProgram(p), Charged(f), OP_CALL);
    var _ := CallReaches(h, msg, Charged(f), p.call);
    RunUnfolds(h, msg, CallProgram(p), f);
  }

  /** A call, on any host: the callee receives its region of the memory that has the expression's value, and the
      program returns its region of that memory with the output and then the flag written to it. */
  lemma PassesAndReturns<C>(h: Host<C>, ctx: C, msg: Message, p: Caller)
    requires Room(p.e) <= STACK_LIMIT && msg.gas >= CostToCall(p) && Within(p.at, 64) && Refusal(msg, p.call).None?
    ensures
      var o := Execute(h, ctx, msg, CallProgram(p));
      var (ctx1, w) := Eval(h, msg, 0, ctx, p.e);
      var (ctx2, r) := h.call(ctx1, Passed(msg, p, w));
      o.f.ctx == ctx2 && o.result == CallerResult(msg, p, w, r, h.allocates(ctx2, p.end.size))
  {
    hide Run, Eval, CallProgram, CallArguments, Patched, Has, Granted, Kept, Replied, FlagWord, StoreAndEnd;
    hide StoreAndEndResult, Zeros;
    var f := CallReady(h, ctx, msg, p);
    var g := Calls(h, msg, CallProgram(p), f, p.call);
    StoredAndEnded(h, msg, CallProgram(p), g, p.flagAt, p.end);
  }

  ghost function Passed(msg: Message, p: Caller, w: word): Message
    requires msg.gas >= CostToCall(p) && Within(p.at, 64) && Refusal(msg, p.call).None?
  {
    Passing(msg, p.call, Granted(p.call.gas, msg.gas - CostToCall(p)), Patched(EMPTY, p.at, w))
  }

  ghost function CallerResult(msg: Message, p: Caller, w: word, r: Result, granted: bool): Result
    requires msg.gas >= CostToCall(p) && Within(p.at, 64) && Refusal(msg, p.call).None?
  {
    StoreAndEndResult(p.flagAt, p.end,
                      Kept(msg.gas - CostToCall(p), Granted(p.call.gas, msg.gas - CostToCall(p)), r),
                      Replied(p.call, Patched(EMPTY, p.at, w), r.output),
                      FlagWord(r.status == Success), granted)
  }
}
