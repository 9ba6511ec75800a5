/** The example VM as the program it is: a stack and a memory updated in place and a loop over
    the code, proved to compute the outcome that ExampleVm.Execute defines (example_vm.cpp). */
module ExampleVmImp {
  import opened Bits
  import opened Words
  import opened Results
  import opened Instructions
  import opened ExampleVm
  import opened ExampleVmMemory

  class Stack {
    const items: array<word>
    var pointer: nat

    ghost predicate Valid()
      reads this
    {
      pointer <= STACK_LIMIT == items.Length
    }

    ghost function Contents(): (s: seq<word>)
      requires Valid()
      reads this, items
    {
      items[..pointer]
    }

    constructor ()
      ensures Valid() && fresh(items) && Contents() == []
    {
      items := new word[STACK_LIMIT](_ => ZERO);
      pointer := 0;
    }

    method Pop() returns (ok: bool, value: word)
      requires Valid()
      modifies this`pointer
      ensures Valid()
      ensures ok == (old(Contents()) != [])
      ensures ok ==> var s := old(Contents()); Contents() == s[..|s| - 1] && value == s[|s| - 1]
      ensures !ok ==> Contents() == old(Contents())
    {
      if pointer == 0 {
        return false, ZERO;
      }
      pointer := pointer - 1;
      value := items[pointer];
      ok := true;
    }

    method Push(value: word) returns (ok: bool)
      requires Valid()
      modifies this`pointer, items
      ensures Valid()
      ensures ok == (|old(Contents())| < 1024)
      ensures Contents() == if ok then old(Contents()) + [value] else old(Contents())
    {
      if pointer == STACK_LIMIT {
        return false;
      }
      items[pointer] := value;
      pointer := pointer + 1;
      ok := true;
    }
  }

  class Memory {
    var size: nat
    const data: array<byte>

    ghost predicate Valid()
      reads this
    {
      size <= MEMORY_SIZE == data.Length
    }

    ghost function State(): Mem
      requires Valid()
      reads this, data
    {
      MemoryState(size, data[..])
    }

    constructor ()
      ensures Valid() && fresh(data) && State() == EMPTY_MEMORY
    {
      size := 0;
      data := new byte[MEMORY_SIZE](_ => 0);
      new;
      assert data[..] == Zeros(MEMORY_SIZE);
    }

    /** Whether the region could be expanded; it then starts at data[offset]. */
    method Expand(offset: uint32, region: uint32) returns (ok: bool)
      requires Valid()
      modifies this`size
      ensures Valid()
      ensures ok == (offset as int + region <= 1024)
      ensures State() == if ok then Expanded(old(State()), offset, region) else old(State())
    {
      if offset > MEMORY_SIZE || region > MEMORY_SIZE - offset {
        return false;
      }
      var newSize := offset as int + region;
      if newSize > size {
        size := newSize;
      }
      ok := true;
    }

    method Store(offset: uint32, value: seq<byte>) returns (ok: bool)
      requires Valid() && |value| < 0x1_0000_0000
      modifies this, data
      ensures Valid()
      ensures (State(), ok) == Stored(old(State()), offset, value)
    {
      ok := Expand(offset, |value|);
      if !ok {
        return;
      }
      forall i | 0 <= i < |value| {
        data[offset as int + i] := value[i];
      }
      StoredWrites(old(State()), offset, value);
      assert data[..] == Stored(old(State()), offset, value).0.data;
    }
  }

  /** The stack and the memory are those of the frame f. */
  ghost predicate Holds<C>(stack: Stack, memory: Memory, f: Frame<C>)
    reads stack, stack.items, memory, memory.data
  {
    stack.Valid() && memory.Valid() && stack.Contents() == f.stack && memory.State() == f.mem
  }

  /** The loop over the bytes of a value. */
  method AllBytesZero(value: word) returns (zero: bool)
    ensures zero == (value == ZERO)
  {
    var i := 0;
    while i < 64
      invariant 0 <= i <= 64
      invariant forall k :: 0 <= k < i ==> value[k] == 0
    {
      if value[i] != 0 {
        assert ZERO[i] == 0;
        return false;
      }
      i := i + 1;
    }
    assert value == ZERO;
    zero := true;
  }

  method PushOr(stack: Stack, value: word) returns (halt: Option<Result>)
    requires stack.Valid()
    modifies stack`pointer, stack.items
    ensures stack.Valid()
    ensures if |old(stack.Contents())| < STACK_LIMIT
            then halt == None && stack.Contents() == old(stack.Contents()) + [value]
            else halt == Some(Failed(StackOverflow))
  {
    var ok := stack.Push(value);
    halt := if ok then None else Some(Failed(StackOverflow));
  }

  method Add(stack: Stack) returns (halt: Option<Result>)
    requires stack.Valid()
    modifies stack`pointer, stack.items
    ensures stack.Valid()
    ensures var s := old(stack.Contents());
      if |s| < 2 then halt == Some(Failed(StackUnderflow))
      else halt == None && stack.Contents() == s[..|s| - 2] + [Sum(s[|s| - 1], s[|s| - 2])]
  {
    hide ToUint32, ToUint512;
    var ok, a := stack.Pop();
    if !ok {
      return Some(Failed(StackUnderflow));
    }
    var ok', b := stack.Pop();
    if !ok' {
      return Some(Failed(StackUnderflow));
    }
    var sum := (ToUint32(a) as int + ToUint32(b)) % 0x1_0000_0000;
    halt := PushOr(stack, ToUint512(sum));
  }

  method CallDataLoad(stack: Stack, input: seq<byte>) returns (halt: Option<Result>)
    requires stack.Valid()
    modifies stack`pointer, stack.items
    ensures stack.Valid()
    ensures var s := old(stack.Contents());
      if |s| < 1 then halt == Some(Failed(StackUnderflow))
      else halt == None && stack.Contents() == s[..|s| - 1] + [InputWord(input, ToUint32(s[|s| - 1]))]
  {
    hide ToUint32;
    var ok, offsetValue := stack.Pop();
    if !ok {
      return Some(Failed(StackUnderflow));
    }
    var offset := ToUint32(offsetValue);
    var value := ZERO;
    if offset < |input| {
      var copySize := Min(|input| - offset, 64);
      value := input[offset..offset as int + copySize] + Zeros(64 - copySize);
    }
    assert value == InputWord(input, offset);
    halt := PushOr(stack, value);
  }

  method DupOne(stack: Stack) returns (halt: Option<Result>)
    requires stack.Valid()
    modifies stack`pointer, stack.items
    ensures stack.Valid()
    ensures var s := old(stack.Contents());
      if |s| < 1 then halt == Some(Failed(StackUnderflow))
      else if |s| >= STACK_LIMIT then halt == Some(Failed(StackOverflow))
      else halt == None && stack.Contents() == s + [s[|s| - 1]]
  {
    var ok, value := stack.Pop();
    if !ok {
      return Some(Failed(StackUnderflow));
    }
    halt := PushOr(stack, value);
    if halt == None {
      halt := PushOr(stack, value);
    }
  }

  method StoreWord(stack: Stack, memory: Memory) returns (halt: Option<Result>)
    requires stack.Valid() && memory.Valid()
    modifies stack`pointer, memory, memory.data
    ensures stack.Valid() && memory.Valid()
    ensures var s := old(stack.Contents());
      if |s| < 2 then halt == Some(Failed(StackUnderflow)) else
        var (mem, stored) := Stored(old(memory.State()), ToUint32(s[|s| - 1]), s[|s| - 2]);
        if !stored then halt == Some(Failed(Failure))
        else halt == None && stack.Contents() == s[..|s| - 2] && memory.State() == mem
  {
    hide ToUint32, Stored;
    var ok, indexValue := stack.Pop();
    if !ok {
      return Some(Failed(StackUnderflow));
    }
    var ok', value := stack.Pop();
    if !ok' {
      return Some(Failed(StackUnderflow));
    }
    var stored := memory.Store(ToUint32(indexValue), value);
    halt := if stored then None else Some(Failed(Failure));
  }

  method LoadStorage<C>(h: Host<C>, msg: Message, ctx: C, stack: Stack, ghost f: Frame<C>)
    returns (halt: Option<Result>, ctx': C)
    requires stack.Valid() && stack.Contents() == f.stack && f.ctx == ctx
    modifies stack`pointer, stack.items
    ensures stack.Valid()
    ensures match AfterSload(h, msg, f)
      case Next(f') => halt == None && ctx' == f'.ctx && stack.Contents() == f'.stack &&
                       f'.pc == f.pc + 1 && f'.gas == f.gas && f'.mem == f.mem
      case Halt(f', r) => halt == Some(r) && ctx' == f'.ctx
  {
    var ok, index := stack.Pop();
    if !ok {
      return Some(Failed(StackUnderflow)), ctx;
    }
    var (after, value) := h.getStorage(ctx, msg.recipient, index);
    halt := PushOr(stack, value);
    ctx' := after;
  }

  method StoreStorage<C>(h: Host<C>, msg: Message, ctx: C, stack: Stack, ghost f: Frame<C>)
    returns (halt: Option<Result>, ctx': C)
    requires stack.Valid() && stack.Contents() == f.stack && f.ctx == ctx
    modifies stack`pointer
    ensures stack.Valid()
    ensures match AfterSstore(h, msg, f)
      case Next(f') => halt == None && ctx' == f'.ctx && stack.Contents() == f'.stack &&
                       f'.pc == f.pc + 1 && f'.gas == f.gas && f'.mem == f.mem
      case Halt(f', r) => halt == Some(r) && ctx' == f'.ctx
  {
    var ok, index := stack.Pop();
    if !ok {
      return Some(Failed(StackUnderflow)), ctx;
    }
    var ok', value := stack.Pop();
    if !ok' {
      return Some(Failed(StackUnderflow)), ctx;
    }
    if Static(msg) {
      return Some(Failed(StaticModeViolation)), ctx;
    }
    halt := None;
    ctx' := h.setStorage(ctx, msg.recipient, index, value);
  }

  /** RETURN and REVERT. */
  method Return<C>(h: Host<C>, ctx: C, gasLeft: int64, status: Status, stack: Stack, memory: Memory,
                   ghost f: Frame<C>)
    returns (r: Result)
    requires Holds(stack, memory, f) && f.ctx == ctx && f.gas == gasLeft
    modifies stack`pointer, memory`size
    ensures var s := AfterReturn(h, f, status); s.Halt? && s.result == r && s.f.ctx == ctx
    ensures stack.Valid() && memory.Valid()
  {
    hide ToUint32;
    var ok, offsetValue := stack.Pop();
    if !ok {
      return Failed(StackUnderflow);
    }
    var ok', sizeValue := stack.Pop();
    if !ok' {
      return Failed(StackUnderflow);
    }
    var offset, size := ToUint32(offsetValue), ToUint32(sizeValue);
    var fits := memory.Expand(offset, size);
    if !fits {
      return Failed(Failure);
    }
    assert memory.data[..] == f.mem.data;
    assert memory.data[offset..offset as int + size] == f.mem.data[offset..offset as int + size];
    r := MakeResult(status, gasLeft, 0, memory.data, offset, size, h.allocates(ctx, size));
  }

  method PopPair(stack: Stack) returns (ok: bool, first: uint32, second: uint32)
    requires stack.Valid()
    modifies stack`pointer
    ensures stack.Valid()
    ensures ok == (|old(stack.Contents())| >= 2)
    ensures ok ==> var s := old(stack.Contents());
      stack.Contents() == s[..|s| - 2] && first == ToUint32(s[|s| - 1]) && second == ToUint32(s[|s| - 2])
  {
    hide ToUint32;
    var ok1, a := stack.Pop();
    if !ok1 {
      return false, 0, 0;
    }
    var ok2, b := stack.Pop();
    if !ok2 {
      return false, 0, 0;
    }
    ok, first, second := true, ToUint32(a), ToUint32(b);
  }

  method PopThree(stack: Stack) returns (ok: bool, a: word, b: word, c: word)
    requires stack.Valid()
    modifies stack`pointer
    ensures stack.Valid()
    ensures ok == (|old(stack.Contents())| >= 3)
    ensures ok ==> var s := old(stack.Contents());
      stack.Contents() == s[..|s| - 3] && a == s[|s| - 1] && b == s[|s| - 2] && c == s[|s| - 3]
  {
    var ok1, ok2, ok3;
    b, c := ZERO, ZERO;
    ok1, a := stack.Pop();
    if !ok1 {
      return false, a, b, c;
    }
    ok2, b := stack.Pop();
    if !ok2 {
      return false, a, b, c;
    }
    ok3, c := stack.Pop();
    ok := ok3;
  }

  /** CALL up to the two memory regions: why it is refused, or its operands. */
  method CallOperands<C>(h: Host<C>, msg: Message, stack: Stack, memory: Memory, ghost f: Frame<C>)
    returns (halt: Option<Result>, gas: uint32, recipient: word, callValue: word,
             inOffset: uint32, inSize: uint32, outOffset: uint32, outSize: uint32)
    requires Holds(stack, memory, f)
    modifies stack`pointer, memory`size
    ensures stack.Valid() && memory.Valid()
    ensures match halt
      case Some(r) => AfterCall(h, msg, f) == Halt(f, r)
      case None =>
        && |f.stack| >= 7 && stack.Contents() == f.stack[..|f.stack| - 7]
        && msg.depth < DEPTH_LIMIT && (Static(msg) ==> callValue == ZERO)
        && gas == ToUint32(Top(f, 0)) && recipient == Top(f, 1) && callValue == Top(f, 2)
        && inOffset == ToUint32(Top(f, 3)) && inSize == ToUint32(Top(f, 4)) && Fits(inOffset, inSize)
        && outOffset == ToUint32(Top(f, 5)) && outSize == ToUint32(Top(f, 6)) && Fits(outOffset, outSize)
        && memory.State() == Expanded(Expanded(f.mem, inOffset, inSize), outOffset, outSize)
  {
    hide ToUint32, Zeros, AfterReply, Expanded;
    gas, inOffset, inSize, outOffset, outSize := 0, 0, 0, 0, 0;
    var ok, gasValue;
    ok, gasValue, recipient, callValue := PopThree(stack);
    if !ok {
      halt := Some(Failed(StackUnderflow));
      return;
    }
    if msg.depth >= DEPTH_LIMIT {
      halt := Some(Failed(CallDepthExceeded));
      return;
    }
    var zero := AllBytesZero(callValue);
    if Static(msg) && !zero {
      halt := Some(Failed(StaticModeViolation));
      return;
    }
    gas := ToUint32(gasValue);
    ok, inOffset, inSize := PopPair(stack);
    if !ok {
      halt := Some(Failed(StackUnderflow));
      return;
    }
    var fitsIn := memory.Expand(inOffset, inSize);
    ok, outOffset, outSize := PopPair(stack);
    if !ok {
      halt := Some(Failed(StackUnderflow));
      return;
    }
    var fitsOut := memory.Expand(outOffset, outSize);
    halt := if !fitsIn || !fitsOut then Some(Failed(Failure)) else None;
  }

  method MakeCall<C>(h: Host<C>, msg: Message, ctx: C, gasLeft: int64, stack: Stack, memory: Memory,
                     ghost f: Frame<C>)
    returns (halt: Option<Result>, ctx': C, gasLeft': int64)
    requires Holds(stack, memory, f) && f.ctx == ctx && f.gas == gasLeft
    modifies stack`pointer, stack.items, memory, memory.data
    ensures stack.Valid() && memory.Valid()
    ensures match AfterCall(h, msg, f)
      case Next(f') => halt == None && ctx' == f'.ctx && gasLeft' == f'.gas && Holds(stack, memory, f') &&
                       f'.pc == f.pc + 1
      case Halt(f', r) => halt == Some(r) && ctx' == f'.ctx
  {
    hide ToUint32, Zeros, Expanded, AfterReply;
    ctx', gasLeft' := ctx, gasLeft;
    var gas, recipient, callValue, inOffset, inSize, outOffset, outSize;
    halt, gas, recipient, callValue, inOffset, inSize, outOffset, outSize :=
      CallOperands(h, msg, stack, memory, f);
    if halt == None {
      var input := memory.data[inOffset..inOffset as int + inSize];
      assert memory.data[..][inOffset..inOffset as int + inSize] == input;
      var call := Message(msg.flags, msg.depth + 1, Min(gas, gasLeft), recipient, msg.recipient,
                          input, callValue, recipient);
      ghost var f' := f.(mem := memory.State(), ends := f.ends + [inOffset + inSize, outOffset + outSize]);
      halt, ctx', gasLeft' := SendCall(h, ctx, gasLeft, call, outOffset, outSize, stack, memory, f');
    }
  }

  /** CALL from the host's reply on. */
  method SendCall<C>(h: Host<C>, ctx: C, gasLeft: int64, call: Message, outOffset: uint32, outSize: uint32,
                     stack: Stack, memory: Memory, ghost f: Frame<C>)
    returns (halt: Option<Result>, ctx': C, gasLeft': int64)
    requires stack.Valid() && memory.Valid() && memory.State() == f.mem && f.gas == gasLeft
    requires 7 <= |f.stack| <= STACK_LIMIT && stack.Contents() == f.stack[..|f.stack| - 7]
    requires 0 <= call.gas <= gasLeft && Fits(outOffset, outSize)
    modifies stack`pointer, stack.items, memory, memory.data
    ensures stack.Valid() && memory.Valid() && halt == None
    ensures var s := AfterReply(f, call, h.call(ctx, call), outOffset, outSize);
      && s.Next? && s.f.pc == f.pc + 1
      && ctx' == s.f.ctx && gasLeft' == s.f.gas && Holds(stack, memory, s.f)
  {
    hide ToUint512, Stored, Zeros;
    gasLeft' := gasLeft - call.gas;
    var (after, result) := h.call(ctx, call);
    gasLeft' := gasLeft' + Clamp(result.gasLeft, 0, call.gas);
    ctx' := after;
    halt := PushOr(stack, ToUint512(if result.status == Success then 1 else 0));
    if halt == None {
      var copied := Min(outSize, |result.output|);
      var _ := memory.Store(outOffset, result.output[..copied]);
    }
  }

  method PushImmediate(stack: Stack, code: seq<byte>, pc: nat) returns (halt: Option<Result>)
    requires stack.Valid() && pc < |code| && OP_PUSH1 <= code[pc] <= OP_PUSH64
    modifies stack`pointer, stack.items
    ensures stack.Valid()
    ensures if |old(stack.Contents())| < STACK_LIMIT
            then halt == None &&
                 stack.Contents() == old(stack.Contents()) + [Immediate(code, pc, Immediates(code[pc]))]
            else halt == Some(Failed(StackOverflow))
  {
    hide Zeros;
    var numPushBytes := code[pc] as int - OP_PUSH1 as int + 1;
    var offset := 64 - numPushBytes;
    var available := Min(numPushBytes, |code| - pc - 1);
    var value := Zeros(offset) + code[pc + 1..pc + 1 + available] + Zeros(numPushBytes - available);
    assert value == Immediate(code, pc, Immediates(code[pc]));
    halt := PushOr(stack, value);
  }

  /** The body of the loop, after the charge. */
  method Instruction<C>(h: Host<C>, msg: Message, code: seq<byte>, pc: nat, gasLeft: int64, ctx: C,
                        stack: Stack, memory: Memory, ghost f: Frame<C>)
    returns (halt: Option<Result>, pc': nat, gasLeft': int64, ctx': C)
    requires pc < |code| && Holds(stack, memory, f) && f.pc == pc && f.gas == gasLeft && f.ctx == ctx
    modifies stack`pointer, stack.items, memory, memory.data
    ensures stack.Valid() && memory.Valid()
    ensures match Exec(h, msg, code, f)
      case Next(f') =>
        halt == None && pc' == f'.pc && gasLeft' == f'.gas && ctx' == f'.ctx && Holds(stack, memory, f')
      case Halt(f', r) => halt == Some(r) && ctx' == f'.ctx
  {
    hide ToUint32, ToUint512, Stored, Zeros, Expanded, Sum, InputWord, Immediate;
    hide AfterCall, AfterSload, AfterSstore, AfterReturn;
    pc', gasLeft', ctx' := pc + 1, gasLeft, ctx;
    var op := code[pc];
    if op == OP_STOP {
      var r := MakeResult(Success, gasLeft, 0, null, 0, 0, true);
      halt := Some(r);
    } else if op == OP_ADD {
      halt := Add(stack);
    } else if op == OP_ADDRESS {
      halt := PushOr(stack, msg.recipient);
    } else if op == OP_CALLDATALOAD {
      halt := CallDataLoad(stack, msg.input);
    } else if op == OP_NUMBER {
      var (after, number) := h.blockNumber(ctx);
      ctx' := after;
      halt := PushOr(stack, ToUint512(number % 0x1_0000_0000));
    } else if op == OP_MSTORE {
      halt := StoreWord(stack, memory);
    } else if op == OP_SLOAD {
      halt, ctx' := LoadStorage(h, msg, ctx, stack, f);
    } else if op == OP_SSTORE {
      halt, ctx' := StoreStorage(h, msg, ctx, stack, f);
    } else if op == OP_MSIZE {
      halt := PushOr(stack, ToUint512(memory.size));
    } else if OP_PUSH1 <= op <= OP_PUSH64 {
      halt := PushImmediate(stack, code, pc);
      pc' := pc + (op as int - OP_PUSH1 as int + 1) + 1;
    } else if op == OP_DUP1 {
      halt := DupOne(stack);
    } else if op == OP_CALL {
      halt, ctx', gasLeft' := MakeCall(h, msg, ctx, gasLeft, stack, memory, f);
    } else if op == OP_RETURN {
      var r := Return(h, ctx, gasLeft, Success, stack, memory, f);
      halt := Some(r);
    } else if op == OP_REVERT {
      var r := Return(h, ctx, gasLeft, Revert, stack, memory, f);
      halt := Some(r);
    } else {
      halt := Some(Failed(UndefinedInstruction));
    }
  }

  /** The program computes the outcome of the transition function. */
  method Execute<C>(h: Host<C>, ctx: C, msg: Message, code: seq<byte>) returns (result: Result, ctx': C)
    ensures var o := ExampleVm.Execute(h, ctx, msg, code);
      result == o.result && ctx' == o.f.ctx
  {
    hide Exec, Zeros;
    var gasLeft := msg.gas;
    ctx' := ctx;
    if gasLeft < 0 {
      result := MakeResult(OutOfGas, 0, 0, null, 0, 0, true);
      return;
    }
    var stack := new Stack();
    var memory := new Memory();
    ghost var f := Start(ctx, gasLeft);
    var pc := 0;
    while pc < |code|
      invariant 0 <= pc && Holds(stack, memory, f) && fresh(stack) && fresh(stack.items)
      invariant fresh(memory) && fresh(memory.data)
      invariant f.pc == pc && f.gas == gasLeft && f.ctx == ctx'
      invariant Run(h, msg, code, f) == Run(h, msg, code, Start(ctx, msg.gas))
      decreases |code| - pc
    {
      gasLeft := gasLeft - 1;
      if gasLeft < 0 {
        result := MakeResult(OutOfGas, 0, 0, null, 0, 0, true);
        return;
      }
      ghost var s := OneStep(h, msg, code, f);
      var halt;
      halt, pc, gasLeft, ctx' := Instruction(h, msg, code, pc, gasLeft, ctx', stack, memory, Charged(f));
      if halt.Some? {
        return halt.value, ctx';
      }
      f := s.f;
    }
    result := MakeResult(Success, gasLeft, 0, null, 0, 0, true);
  }
}
