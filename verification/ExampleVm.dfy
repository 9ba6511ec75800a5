/** The example VM as a transition function: what one instruction and one run do to the
    machine, given any host (example_vm.cpp). ExampleVmImp.dfy has the program itself. */
module ExampleVm {
  import opened Bits
  import opened Words
  import opened Results
  import opened Instructions

  const STACK_LIMIT: nat := 1024
  const MEMORY_SIZE: nat := 1024
  const DEPTH_LIMIT: int := 1024

  datatype Message = Message(flags: uint32, depth: int32, gas: int64, recipient: word, sender: word,
                             input: seq<byte>, value: word, codeAddress: word)

  predicate Static(msg: Message) {
    msg.flags % 2 == 1
  }

  /** A host is any behaviour over any state: it may answer anything and misreport gas.
      `allocates` is the outcome of malloc for the frame's output. */
  datatype Host<!C> = Host(
    blockNumber: C -> (C, int64),
    getStorage: (C, word, word) -> (C, word),
    setStorage: (C, word, word, word) -> C,
    call: (C, Message) -> (C, Result),
    allocates: (C, nat) -> bool)

  /** The host methods a frame has called, with what the host answered to a call. */
  datatype Event =
    | ReadBlockNumber
    | Load(account: word, key: word)
    | Store(account: word, key: word, value: word)
    | Call(msg: Message, result: Result)

  datatype MemoryState = MemoryState(size: nat, data: seq<byte>)

  type Mem = m: MemoryState | m.size <= MEMORY_SIZE == |m.data| witness MemoryState(0, Zeros(MEMORY_SIZE))

  type Gas = x: int | 0 <= x < 0x8000_0000_0000_0000

  /** The machine within a frame. The last three fields are history: the pcs of the charged
      instructions, the host methods called, and the ends of the memory regions expanded. */
  datatype Frame<C> = Frame(pc: nat, gas: Gas, stack: seq<word>, mem: Mem, ctx: C,
                            visited: seq<nat>, events: seq<Event>, ends: seq<nat>)

  datatype Step<C> = Next(f: Frame<C>) | Halt(f: Frame<C>, result: Result)

  datatype Outcome<C> = Outcome(f: Frame<C>, result: Result)

  // ---------- conversions ----------

  function ToUint512(x: uint32): word {
    Zeros(60) + LowBytes(x, 4)
  }

  function ToUint32(w: word): (r: uint32)
    ensures r == Value(w[60..])
  {
    LowLoadValue(w[60..]);
    Or(Or(Or(Shl(w[60], 24), Shl(w[61], 16)), Shl(w[62], 8)), w[63])
  }

  lemma LowLoadValue(d: seq<byte>)
    requires |d| == 4
    ensures Or(Or(Or(Shl(d[0], 24), Shl(d[1], 16)), Shl(d[2], 8)), d[3]) == Value(d) < 0x1_0000_0000
  {
    hide Or, Shl, Value;
    LoadEnds(d);
    var h := LoadNext(d, 1, Shl(d[0], 24));
    h := LoadNext(d, 2, h);
    h := LoadNext(d, 3, h);
  }

  /** ADD keeps only the low 32 bits of its operands and of their sum. */
  function Sum(a: word, b: word): word {
    ToUint512((ToUint32(a) + ToUint32(b)) % 0x1_0000_0000)
  }

  /** The 64 bytes of input from the offset on, padded with zeros on the right. */
  function InputWord(input: seq<byte>, offset: nat): word {
    if offset >= |input| then ZERO
    else if |input| - offset < 64 then input[offset..] + Zeros(64 - (|input| - offset))
    else input[offset..offset + 64]
  }

  /** The immediate of a PUSH of n bytes, right-aligned; bytes past the end of the code are zero. */
  function Immediate(code: seq<byte>, pc: nat, n: nat): word
    requires pc < |code| && 1 <= n <= 64
  {
    var available := if n < |code| - pc - 1 then n else |code| - pc - 1;
    Zeros(64 - n) + code[pc + 1..pc + 1 + available] + Zeros(n - available)
  }

  function Min(a: int, b: int): int {
    if b < a then b else a
  }

  function Clamp(x: int, lo: int, hi: int): int {
    if x < lo then lo else if x > hi then hi else x
  }

  // ---------- memory ----------

  const EMPTY_MEMORY: Mem := MemoryState(0, Zeros(MEMORY_SIZE))

  predicate Fits(offset: nat, region: nat) {
    offset <= MEMORY_SIZE && region <= MEMORY_SIZE - offset
  }

  function Expanded(m: Mem, offset: nat, region: nat): Mem
    requires Fits(offset, region)
  {
    if offset + region > m.size then m.(size := offset + region) else m
  }

  /** Memory::store: the flag is its return value. */
  function Stored(m: Mem, offset: nat, value: seq<byte>): (Mem, bool) {
    if !Fits(offset, |value|) then (m, false) else
      var e := Expanded(m, offset, |value|);
      (e.(data := e.data[..offset] + value + e.data[offset + |value|..]), true)
  }

  // ---------- one instruction ----------

  function Fail<C>(f: Frame<C>, status: Status): Step<C> {
    Halt(f, Failed(status))
  }

  /** Replaces the top n items by w and moves to pc. */
  function Push<C>(f: Frame<C>, n: nat, w: word, pc: nat): Step<C>
    requires n <= |f.stack|
  {
    var rest := f.stack[..|f.stack| - n];
    if |rest| >= STACK_LIMIT then Fail(f, StackOverflow)
    else Next(f.(stack := rest + [w], pc := pc))
  }

  /** The i-th item from the top. */
  function Top<C>(f: Frame<C>, i: nat): word
    requires i < |f.stack|
  {
    f.stack[|f.stack| - 1 - i]
  }

  function Drop<C>(f: Frame<C>, n: nat): Frame<C>
    requires n <= |f.stack|
  {
    f.(stack := f.stack[..|f.stack| - n], pc := f.pc + 1)
  }

  function AfterNumber<C>(h: Host<C>, f: Frame<C>): Step<C> {
    var (ctx, number) := h.blockNumber(f.ctx);
    var f' := f.(ctx := ctx, events := f.events + [ReadBlockNumber]);
    Push(f', 0, ToUint512(number % 0x1_0000_0000), f.pc + 1)
  }

  function AfterMstore<C>(f: Frame<C>): Step<C> {
    if |f.stack| < 2 then Fail(f, StackUnderflow) else
      var index := ToUint32(Top(f, 0));
      var (mem, stored) := Stored(f.mem, index, Top(f, 1));
      if !stored then Fail(f, Failure) else
        Next(Drop(f, 2).(mem := mem, ends := f.ends + [index + 64]))
  }

  function AfterSload<C>(h: Host<C>, msg: Message, f: Frame<C>): Step<C> {
    if |f.stack| < 1 then Fail(f, StackUnderflow) else
      var (ctx, value) := h.getStorage(f.ctx, msg.recipient, Top(f, 0));
      var f' := f.(ctx := ctx, events := f.events + [Load(msg.recipient, Top(f, 0))]);
      Push(f', 1, value, f.pc + 1)
  }

  function AfterSstore<C>(h: Host<C>, msg: Message, f: Frame<C>): Step<C> {
    if |f.stack| < 2 then Fail(f, StackUnderflow)
    else if Static(msg) then Fail(f, StaticModeViolation) else
      var (key, value) := (Top(f, 0), Top(f, 1));
      Next(Drop(f, 2).(ctx := h.setStorage(f.ctx, msg.recipient, key, value),
                       events := f.events + [Store(msg.recipient, key, value)]))
  }

  function AfterDup1<C>(f: Frame<C>): Step<C> {
    if |f.stack| < 1 then Fail(f, StackUnderflow)
    else if |f.stack| >= STACK_LIMIT then Fail(f, StackOverflow)
    else Next(f.(stack := f.stack + [Top(f, 0)], pc := f.pc + 1))
  }

  function ChildMessage<C>(msg: Message, f: Frame<C>, input: seq<byte>): Message
    requires |f.stack| >= 3 && msg.depth < DEPTH_LIMIT
  {
    Message(msg.flags, msg.depth + 1, Min(ToUint32(Top(f, 0)), f.gas), Top(f, 1), msg.recipient,
            input, Top(f, 2), Top(f, 1))
  }

  /** CALL up to the host's reply; `mem` is the memory with both regions expanded. */
  function AfterCall<C>(h: Host<C>, msg: Message, f: Frame<C>): Step<C> {
    if |f.stack| < 3 then Fail(f, StackUnderflow)
    else if msg.depth >= DEPTH_LIMIT then Fail(f, CallDepthExceeded)
    else if Static(msg) && Top(f, 2) != ZERO then Fail(f, StaticModeViolation)
    else if |f.stack| < 7 then Fail(f, StackUnderflow) else
      var (inOffset, inSize) := (ToUint32(Top(f, 3)), ToUint32(Top(f, 4)));
      var (outOffset, outSize) := (ToUint32(Top(f, 5)), ToUint32(Top(f, 6)));
      if !Fits(inOffset, inSize) || !Fits(outOffset, outSize) then Fail(f, Failure) else
        var mem := Expanded(Expanded(f.mem, inOffset, inSize), outOffset, outSize);
        var f' := f.(mem := mem, ends := f.ends + [inOffset + inSize, outOffset + outSize]);
        var call := ChildMessage(msg, f, f.mem.data[inOffset..inOffset + inSize]);
        AfterReply(f', call, h.call(f.ctx, call), outOffset, outSize)
  }

  /** CALL from the host's reply on: the returned gas is clamped to the granted one, and as
      much output as both sides allow is copied. */
  function AfterReply<C>(f: Frame<C>, call: Message, reply: (C, Result), offset: nat, size: nat): Step<C>
    requires |f.stack| >= 7 && 0 <= call.gas <= f.gas && Fits(offset, size)
  {
    var result := reply.1;
    var copied := Min(size, |result.output|);
    Next(Drop(f, 7).(
      gas := f.gas - call.gas + Clamp(result.gasLeft, 0, call.gas),
      stack := f.stack[..|f.stack| - 7] + [ToUint512(if result.status == Success then 1 else 0)],
      mem := Stored(f.mem, offset, result.output[..copied]).0,
      ctx := reply.0,
      events := f.events + [Call(call, result)],
      ends := f.ends + [offset + copied]))
  }

  /** RETURN and REVERT. */
  function AfterReturn<C>(h: Host<C>, f: Frame<C>, status: Status): Step<C> {
    if |f.stack| < 2 then Fail(f, StackUnderflow) else
      var (offset, size) := (ToUint32(Top(f, 0)), ToUint32(Top(f, 1)));
      if !Fits(offset, size) then Fail(f, Failure) else
        var output := f.mem.data[offset..offset + size];
        Halt(f.(mem := Expanded(f.mem, offset, size), ends := f.ends + [offset + size]),
             Made(status, f.gas, 0, Some(output), size, h.allocates(f.ctx, size)))
  }

  /** The instruction at pc, already charged for. */
  function Exec<C>(h: Host<C>, msg: Message, code: seq<byte>, f: Frame<C>): Step<C>
    requires f.pc < |code|
  {
    var op := code[f.pc];
    if op == OP_STOP then
      Halt(f, Made(Success, f.gas, 0, None, 0, true))
    else if op == OP_ADD then
      if |f.stack| < 2 then Fail(f, StackUnderflow)
      else Push(f, 2, Sum(Top(f, 0), Top(f, 1)), f.pc + 1)
    else if op == OP_ADDRESS then
      Push(f, 0, msg.recipient, f.pc + 1)
    else if op == OP_CALLDATALOAD then
      if |f.stack| < 1 then Fail(f, StackUnderflow)
      else Push(f, 1, InputWord(msg.input, ToUint32(Top(f, 0))), f.pc + 1)
    else if op == OP_NUMBER then AfterNumber(h, f)
    else if op == OP_MSTORE then AfterMstore(f)
    else if op == OP_SLOAD then AfterSload(h, msg, f)
    else if op == OP_SSTORE then AfterSstore(h, msg, f)
    else if op == OP_MSIZE then
      Push(f, 0, ToUint512(f.mem.size), f.pc + 1)
    else if OP_PUSH1 <= op <= OP_PUSH64 then
      Push(f, 0, Immediate(code, f.pc, Immediates(op)), f.pc + Immediates(op) + 1)
    else if op == OP_DUP1 then AfterDup1(f)
    else if op == OP_CALL then AfterCall(h, msg, f)
    else if op == OP_RETURN then AfterReturn(h, f, Success)
    else if op == OP_REVERT then AfterReturn(h, f, Revert)
    else Fail(f, UndefinedInstruction)
  }

  // ---------- a whole run ----------

  /** The frame with its next instruction charged. */
  function Charged<C>(f: Frame<C>): Frame<C>
    requires f.gas >= 1
  {
    f.(gas := f.gas - 1, visited := f.visited + [f.pc])
  }

  function OneStep<C>(h: Host<C>, msg: Message, code: seq<byte>, f: Frame<C>): (s: Step<C>)
    requires f.pc < |code|
    ensures s.Next? ==> s.f.pc > f.pc
  {
    hide ToUint32, ToUint512, Zeros, Value, Sum, Immediate, InputWord, Stored, Expanded, MetricsOf;
    if f.gas < 1 then Fail(f, OutOfGas)
    else Exec(h, msg, code, Charged(f))
  }

  function Run<C>(h: Host<C>, msg: Message, code: seq<byte>, f: Frame<C>): Outcome<C>
    decreases |code| - f.pc
  {
    if f.pc >= |code| then Outcome(f, Made(Success, f.gas, 0, None, 0, true)) else
      match OneStep(h, msg, code, f)
      case Next(f') => Run(h, msg, code, f')
      case Halt(f', result) => Outcome(f', result)
  }

  function Start<C>(ctx: C, gas: Gas): Frame<C> {
    Frame(0, gas, [], EMPTY_MEMORY, ctx, [], [], [])
  }

  /** A run by its first instruction, charged for. */
  lemma RunUnfolds<C>(h: Host<C>, msg: Message, code: seq<byte>, f: Frame<C>)
    requires f.pc < |code| && f.gas >= 1
    ensures var s := Exec(h, msg, code, Charged(f));
      Run(h, msg, code, f) == if s.Next? then Run(h, msg, code, s.f) else Outcome(s.f, s.result)
    ensures Exec(h, msg, code, Charged(f)).Next? ==> Exec(h, msg, code, Charged(f)).f.pc > f.pc
  {
    hide Exec;
    assert OneStep(h, msg, code, f) == Exec(h, msg, code, Charged(f));
  }

  /** The frame after n instructions, if the run passes that many. */
  function After<C>(h: Host<C>, msg: Message, code: seq<byte>, f: Frame<C>, n: nat): Option<Frame<C>> {
    if n == 0 then Some(f) else
      match After(h, msg, code, f, n - 1)
      case None => None
      case Some(g) =>
        if g.pc >= |code| then None else
          match OneStep(h, msg, code, g)
          case Next(g') => Some(g')
          case Halt(_, _) => None
  }

  /** The last of the n instructions: its charge and its step. */
  lemma AfterLast<C>(h: Host<C>, msg: Message, code: seq<byte>, f: Frame<C>, n: nat) returns (g: Frame<C>)
    requires n > 0 && After(h, msg, code, f, n).Some?
    ensures After(h, msg, code, f, n - 1) == Some(g) && g.pc < |code| && g.gas >= 1
    ensures Exec(h, msg, code, Charged(g)) == Next(After(h, msg, code, f, n).value)
  {
    hide Exec;
    g := After(h, msg, code, f, n - 1).value;
  }

  function Execute<C>(h: Host<C>, ctx: C, msg: Message, code: seq<byte>): Outcome<C> {
    if msg.gas < 0 then Outcome(Start(ctx, 0), Failed(OutOfGas))
    else Run(h, msg, code, Start(ctx, msg.gas))
  }
}
