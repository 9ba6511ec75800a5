/** What the example VM's instructions mean together: the code of any expression evaluates it. */
module ExampleVmExpressions {
  import opened Bits
  import opened Words
  import opened Results
  import opened Instructions
  import opened ExampleVm

  // ---------- expressions ----------

  type immediate = s: seq<byte> | 1 <= |s| <= 64 witness [0]

  datatype Expr =
    | Literal(bytes: immediate)
    | Plus(left: Expr, right: Expr)
    | Twice(operand: Expr)
    | Address
    | CallData(offset: Expr)
    | Number
    | SLoad(key: Expr)
    | MSize

  /** PUSH1 to PUSH64, by the number of bytes. */
  function PushOf(bytes: immediate): byte {
    OP_PUSH1 as int + |bytes| - 1
  }

  /** The code of an expression has the operands last to first, then the instruction. */
  function Code(e: Expr): (c: seq<byte>)
    ensures c != []
  {
    match e
    case Literal(bytes) => [PushOf(bytes)] + bytes
    case Plus(left, right) => Code(right) + Code(left) + [OP_ADD]
    case Twice(operand) => Code(operand) + [OP_DUP1] + [OP_ADD]
    case Address => [OP_ADDRESS]
    case CallData(offset) => Code(offset) + [OP_CALLDATALOAD]
    case Number => [OP_NUMBER]
    case SLoad(key) => Code(key) + [OP_SLOAD]
    case MSize => [OP_MSIZE]
  }

  /** Its instructions, and the stack items it needs. */
  function Cost(e: Expr): (n: nat)
    ensures n > 0
  {
    match e
    case Plus(left, right) => Cost(right) + Cost(left) + 1
    case Twice(operand) => Cost(operand) + 2
    case CallData(offset) => Cost(offset) + 1
    case SLoad(key) => Cost(key) + 1
    case _ => 1
  }

  function Room(e: Expr): (n: nat)
    ensures n > 0
  {
    match e
    case Plus(left, right) => if Room(left) + 1 > Room(right) then Room(left) + 1 else Room(right)
    case Twice(operand) => if Room(operand) > 2 then Room(operand) else 2
    case CallData(offset) => Room(offset)
    case SLoad(key) => Room(key)
    case _ => 1
  }

  /** The value of an expression, with the host asked in the order of evaluation. */
  function Eval<C>(h: Host<C>, msg: Message, size: uint32, ctx: C, e: Expr): (C, word) {
    match e
    case Literal(bytes) => (ctx, Zeros(64 - |bytes|) + bytes)
    case Plus(left, right) =>
      var (ctx1, y) := Eval(h, msg, size, ctx, right);
      var (ctx2, x) := Eval(h, msg, size, ctx1, left);
      (ctx2, Sum(x, y))
    case Twice(operand) =>
      var (ctx1, x) := Eval(h, msg, size, ctx, operand);
      (ctx1, Sum(x, x))
    case Address => (ctx, msg.recipient)
    case CallData(offset) =>
      var (ctx1, x) := Eval(h, msg, size, ctx, offset);
      (ctx1, InputWord(msg.input, ToUint32(x)))
    case Number => (h.blockNumber(ctx).0, ToUint512(h.blockNumber(ctx).1 % 0x1_0000_0000))
    case SLoad(key) =>
      var (ctx1, x) := Eval(h, msg, size, ctx, key);
      h.getStorage(ctx1, msg.recipient, x)
    case MSize => (ctx, ToUint512(size))
  }

  /** The part c of the code, from pc on. */
  ghost predicate Has(code: seq<byte>, pc: nat, c: seq<byte>) {
    pc + |c| <= |code| && code[pc..pc + |c|] == c
  }

  lemma HasParts(code: seq<byte>, pc: nat, a: seq<byte>, b: seq<byte>)
    requires Has(code, pc, a + b)
    ensures Has(code, pc, a) && Has(code, pc + |a|, b)
  {
    assert code[pc..pc + |a|] == code[pc..pc + |a + b|][..|a|];
    assert code[pc + |a|..pc + |a| + |b|] == code[pc..pc + |a + b|][|a|..];
  }

  lemma HasAll(code: seq<byte>)
    ensures Has(code, 0, code)
  {
  }

  /** g is f after evaluating e. */
  ghost predicate Evaluated<C>(h: Host<C>, msg: Message, f: Frame<C>, e: Expr, g: Frame<C>) {
    && Eval(h, msg, f.mem.size, f.ctx, e).0 == g.ctx
    && g.stack == f.stack + [Eval(h, msg, f.mem.size, f.ctx, e).1]
    && g.pc == f.pc + |Code(e)| && g.gas == f.gas - Cost(e) && g.mem == f.mem
  }

  lemma Advance<C>(h: Host<C>, msg: Message, code: seq<byte>, f: Frame<C>) returns (g: Frame<C>)
    requires f.pc < |code| && f.gas >= 1 && Exec(h, msg, code, Charged(f)).Next?
    ensures g == Exec(h, msg, code, Charged(f)).f && Run(h, msg, code, f) == Run(h, msg, code, g)
  {
    hide Exec;
    RunUnfolds(h, msg, code, f);
    g := Exec(h, msg, code, Charged(f)).f;
  }

  lemma LiteralEvaluates<C>(h: Host<C>, msg: Message, code: seq<byte>, f: Frame<C>, bytes: immediate)
    returns (g: Frame<C>)
    requires Has(code, f.pc, Code(Literal(bytes))) && f.gas >= 1 && |f.stack| < STACK_LIMIT
    ensures Run(h, msg, code, f) == Run(h, msg, code, g) && Evaluated(h, msg, f, Literal(bytes), g)
  {
    LiteralImmediate(code, f.pc, bytes);
    hide Immediate, Zeros;
    g := Advance(h, msg, code, f);
  }

  lemma LiteralImmediate(code: seq<byte>, pc: nat, bytes: immediate)
    requires Has(code, pc, Code(Literal(bytes)))
    ensures pc + |bytes| < |code| && code[pc] == PushOf(bytes)
    ensures Immediate(code, pc, |bytes|) == Zeros(64 - |bytes|) + bytes
  {
    hide Immediate, Zeros;
    HasParts(code, pc, [PushOf(bytes)], bytes);
    assert code[pc] == code[pc..pc + 1][0];
    FullImmediate(code, pc, bytes);
  }

  lemma FullImmediate(code: seq<byte>, pc: nat, bytes: immediate)
    requires pc + |bytes| < |code| && code[pc + 1..pc + 1 + |bytes|] == bytes
    ensures Immediate(code, pc, |bytes|) == Zeros(64 - |bytes|) + bytes
  {
    hide Zeros, Immediate;
    ImmediateWithin(code, pc, |bytes|);
    NoZerosAfter(Zeros(64 - |bytes|) + bytes);
  }

  lemma ImmediateWithin(code: seq<byte>, pc: nat, n: nat)
    requires 1 <= n <= 64 && pc + n < |code|
    ensures Immediate(code, pc, n) == Zeros(64 - n) + code[pc + 1..pc + 1 + n] + Zeros(0)
  {
    hide Zeros;
  }

  lemma NoZerosAfter(s: seq<byte>)
    ensures s + Zeros(0) == s
  {
    NoZeros();
  }

  lemma NoZeros()
    ensures Zeros(0) == []
  {
  }

  lemma LeafEvaluates<C>(h: Host<C>, msg: Message, code: seq<byte>, f: Frame<C>, e: Expr) returns (g: Frame<C>)
    requires e.Address? || e.Number? || e.MSize?
    requires Has(code, f.pc, Code(e)) && f.gas >= 1 && |f.stack| < STACK_LIMIT
    ensures Run(h, msg, code, f) == Run(h, msg, code, g) && Evaluated(h, msg, f, e, g)
  {
    hide Zeros, ToUint512, ToUint32, Sum, InputWord, Immediate;
    assert code[f.pc] == code[f.pc..f.pc + 1][0];
    g := Advance(h, msg, code, f);
  }

  /** The instruction that ends a compound expression's code, once its operands are evaluated. */
  lemma LastInstruction<C>(h: Host<C>, msg: Message, code: seq<byte>, f: Frame<C>, op: byte) returns (g: Frame<C>)
    requires Has(code, f.pc, [op]) && op in {OP_ADD, OP_DUP1, OP_CALLDATALOAD, OP_SLOAD}
    requires f.gas >= 1 && 1 <= |f.stack| <= STACK_LIMIT && (op == OP_ADD ==> |f.stack| >= 2)
    requires op == OP_DUP1 ==> |f.stack| < STACK_LIMIT
    ensures Run(h, msg, code, f) == Run(h, msg, code, g)
    ensures g.pc == f.pc + 1 && g.gas == f.gas - 1 && g.mem == f.mem
    ensures var x := Top(f, 0);
      if op == OP_ADD then
        g.ctx == f.ctx && g.stack == f.stack[..|f.stack| - 2] + [Sum(x, Top(f, 1))]
      else if op == OP_DUP1 then
        g.ctx == f.ctx && g.stack == f.stack + [x]
      else if op == OP_CALLDATALOAD then
        g.ctx == f.ctx && g.stack == f.stack[..|f.stack| - 1] + [InputWord(msg.input, ToUint32(x))]
      else
        && g.ctx == h.getStorage(f.ctx, msg.recipient, x).0
        && g.stack == f.stack[..|f.stack| - 1] + [h.getStorage(f.ctx, msg.recipient, x).1]
  {
    hide ToUint512, ToUint32, Sum, InputWord;
    assert code[f.pc] == code[f.pc..f.pc + 1][0];
    g := Advance(h, msg, code, f);
  }

  lemma HasThreeParts(code: seq<byte>, pc: nat, a: seq<byte>, b: seq<byte>, c: seq<byte>)
    requires Has(code, pc, a + b + c)
    ensures Has(code, pc, a) && Has(code, pc + |a|, b) && Has(code, pc + |a| + |b|, c)
  {
    hide Has;
    HasParts(code, pc, a + b, c);
    HasParts(code, pc, a, b);
  }

  lemma {:induction false} PlusEvaluates<C>(h: Host<C>, msg: Message, code: seq<byte>, f: Frame<C>,
                                            left: Expr, right: Expr)
    returns (g: Frame<C>)
    requires Has(code, f.pc, Code(Plus(left, right)))
    requires f.gas >= Cost(Plus(left, right)) && |f.stack| + Room(Plus(left, right)) <= STACK_LIMIT
    ensures Run(h, msg, code, f) == Run(h, msg, code, g) && Evaluated(h, msg, f, Plus(left, right), g)
    decreases Plus(left, right), 0
  {
    hide Run, Has, Sum, ToUint512, ToUint32, InputWord, Zeros;
    HasThreeParts(code, f.pc, Code(right), Code(left), [OP_ADD]);
    hide Eval;
    var g1 := CodeEvaluates(h, msg, code, f, right);
    var g2 := CodeEvaluates(h, msg, code, g1, left);
    g := LastInstruction(h, msg, code, g2, OP_ADD);
    assert g2.stack[..|g2.stack| - 2] == f.stack;
    PlusValue(h, msg, f.mem.size, f.ctx, left, right);
  }

  lemma PlusValue<C>(h: Host<C>, msg: Message, size: uint32, ctx: C, left: Expr, right: Expr)
    ensures
      var (ctx1, y) := Eval(h, msg, size, ctx, right);
      var (ctx2, x) := Eval(h, msg, size, ctx1, left);
      Eval(h, msg, size, ctx, Plus(left, right)) == (ctx2, Sum(x, y))
  {
    hide Sum;
  }

  lemma {:induction false} TwiceEvaluates<C>(h: Host<C>, msg: Message, code: seq<byte>, f: Frame<C>, operand: Expr)
    returns (g: Frame<C>)
    requires Has(code, f.pc, Code(Twice(operand)))
    requires f.gas >= Cost(Twice(operand)) && |f.stack| + Room(Twice(operand)) <= STACK_LIMIT
    ensures Run(h, msg, code, f) == Run(h, msg, code, g) && Evaluated(h, msg, f, Twice(operand), g)
    decreases Twice(operand), 0
  {
    hide Run, Has, Sum, ToUint512, ToUint32, InputWord, Zeros;
    HasThreeParts(code, f.pc, Code(operand), [OP_DUP1], [OP_ADD]);
    var g1 := CodeEvaluates(h, msg, code, f, operand);
    var g2 := LastInstruction(h, msg, code, g1, OP_DUP1);
    g := LastInstruction(h, msg, code, g2, OP_ADD);
    assert g2.stack[..|g2.stack| - 2] == f.stack;
  }

  lemma {:induction false} CallDataEvaluates<C>(h: Host<C>, msg: Message, code: seq<byte>, f: Frame<C>, offset: Expr)
    returns (g: Frame<C>)
    requires Has(code, f.pc, Code(CallData(offset)))
    requires f.gas >= Cost(CallData(offset)) && |f.stack| + Room(offset) <= STACK_LIMIT
    ensures Run(h, msg, code, f) == Run(h, msg, code, g) && Evaluated(h, msg, f, CallData(offset), g)
    decreases CallData(offset), 0
  {
    hide Run, Has, Sum, ToUint512, ToUint32, InputWord, Zeros;
    HasParts(code, f.pc, Code(offset), [OP_CALLDATALOAD]);
    var g1 := CodeEvaluates(h, msg, code, f, offset);
    g := LastInstruction(h, msg, code, g1, OP_CALLDATALOAD);
    assert g1.stack[..|g1.stack| - 1] == f.stack;
  }

  lemma {:induction false} SLoadEvaluates<C>(h: Host<C>, msg: Message, code: seq<byte>, f: Frame<C>, key: Expr)
    returns (g: Frame<C>)
    requires Has(code, f.pc, Code(SLoad(key)))
    requires f.gas >= Cost(SLoad(key)) && |f.stack| + Room(key) <= STACK_LIMIT
    ensures Run(h, msg, code, f) == Run(h, msg, code, g) && Evaluated(h, msg, f, SLoad(key), g)
    decreases SLoad(key), 0
  {
    hide Run, Has, Sum, ToUint512, ToUint32, InputWord, Zeros;
    HasParts(code, f.pc, Code(key), [OP_SLOAD]);
    var g1 := CodeEvaluates(h, msg, code, f, key);
    g := LastInstruction(h, msg, code, g1, OP_SLOAD);
    assert g1.stack[..|g1.stack| - 1] == f.stack;
  }

  /** The code of an expression, anywhere in any code, evaluates it, whatever the host: it leaves the value on top
      of the stack and the memory as it was, and costs one unit for each of its instructions. */
  lemma {:induction false} CodeEvaluates<C>(h: Host<C>, msg: Message, code: seq<byte>, f: Frame<C>, e: Expr)
    returns (g: Frame<C>)
    requires Has(code, f.pc, Code(e)) && f.gas >= Cost(e) && |f.stack| + Room(e) <= STACK_LIMIT
    ensures Run(h, msg, code, f) == Run(h, msg, code, g)
    ensures Evaluated(h, msg, f, e, g)
    decreases e, 1
  {
    hide Run, Has, Evaluated, Eval, Code;
    match e
    case Literal(bytes) => g := LiteralEvaluates(h, msg, code, f, bytes);
    case Plus(left, right) => g := PlusEvaluates(h, msg, code, f, left, right);
    case Twice(operand) => g := TwiceEvaluates(h, msg, code, f, operand);
    case CallData(offset) => g := CallDataEvaluates(h, msg, code, f, offset);
    case SLoad(key) => g := SLoadEvaluates(h, msg, code, f, key);
    case _ => g := LeafEvaluates(h, msg, code, f, e);
  }

  lemma Starved<C>(h: Host<C>, msg: Message, code: seq<byte>, f: Frame<C>)
    requires f.pc < |code| && f.gas == 0
    ensures Run(h, msg, code, f).result == Failed(OutOfGas) && Run(h, msg, code, f).f.ctx == f.ctx
  {
    hide Exec;
  }

  /** With less gas than its cost, the code of an expression ends in OUT_OF_GAS. */
  lemma {:induction false} CodeStarves<C>(h: Host<C>, msg: Message, code: seq<byte>, f: Frame<C>, e: Expr)
    requires Has(code, f.pc, Code(e)) && f.gas < Cost(e) && |f.stack| + Room(e) <= STACK_LIMIT
    ensures Run(h, msg, code, f).result == Failed(OutOfGas)
    decreases e, 0
  {
    hide Run, Eval;
    match e
    case Plus(left, right) =>
      HasThreeParts(code, f.pc, Code(right), Code(left), [OP_ADD]);
      if f.gas < Cost(right) {
        CodeStarves(h, msg, code, f, right);
      } else {
        var g := CodeEvaluates(h, msg, code, f, right);
        CodeThenStarves(h, msg, code, g, left);
      }
    case Twice(operand) =>
      HasThreeParts(code, f.pc, Code(operand), [OP_DUP1], [OP_ADD]);
      if f.gas <= Cost(operand) {
        CodeThenStarves(h, msg, code, f, operand);
      } else {
        var g := CodeEvaluates(h, msg, code, f, operand);
        g := LastInstruction(h, msg, code, g, OP_DUP1);
        Starved(h, msg, code, g);
      }
    case CallData(offset) =>
      HasParts(code, f.pc, Code(offset), [OP_CALLDATALOAD]);
      CodeThenStarves(h, msg, code, f, offset);
    case SLoad(key) =>
      HasParts(code, f.pc, Code(key), [OP_SLOAD]);
      CodeThenStarves(h, msg, code, f, key);
    case _ =>
      Starved(h, msg, code, f);
  }

  /** The same when there is no more gas than that and another instruction follows. */
  lemma {:induction false} CodeThenStarves<C>(h: Host<C>, msg: Message, code: seq<byte>, f: Frame<C>, e: Expr)
    requires Has(code, f.pc, Code(e)) && f.pc + |Code(e)| < |code|
    requires f.gas <= Cost(e) && |f.stack| + Room(e) <= STACK_LIMIT
    ensures Run(h, msg, code, f).result == Failed(OutOfGas)
    decreases e, 1
  {
    hide Run, Eval, Has;
    if f.gas < Cost(e) {
      CodeStarves(h, msg, code, f, e);
    } else {
      var g := CodeEvaluates(h, msg, code, f, e);
      Starved(h, msg, code, g);
    }
  }

  /** The code of literals, which pushes them. */
  function Pushes(ws: seq<word>): seq<byte> {
    if ws == [] then [] else Pushes(ws[..|ws| - 1]) + Code(Literal(ws[|ws| - 1]))
  }

  lemma WordLiteral(w: word)
    ensures Zeros(64 - |w|) + w == w
  {
    NoZeros();
  }

  lemma {:induction false} PushesEvaluate<C>(h: Host<C>, msg: Message, code: seq<byte>, f: Frame<C>, ws: seq<word>)
    returns (g: Frame<C>)
    requires Has(code, f.pc, Pushes(ws)) && f.gas >= |ws| && |f.stack| + |ws| <= STACK_LIMIT
    ensures Run(h, msg, code, f) == Run(h, msg, code, g)
    ensures g.stack == f.stack + ws && g.pc == f.pc + |Pushes(ws)| && g.gas == f.gas - |ws|
    ensures g.mem == f.mem && g.ctx == f.ctx
  {
    hide Run, Has, Code;
    g := f;
    if ws != [] {
      var (most, last) := (ws[..|ws| - 1], ws[|ws| - 1]);
      HasParts(code, f.pc, Pushes(most), Code(Literal(last)));
      g := PushesEvaluate(h, msg, code, f, most);
      g := LiteralEvaluates(h, msg, code, g, last);
      WordLiteral(last);
      assert ws == most + [last];
    }
  }

  lemma {:induction false} PushesStarve<C>(h: Host<C>, msg: Message, code: seq<byte>, f: Frame<C>, ws: seq<word>)
    requires Has(code, f.pc, Pushes(ws)) && f.pc + |Pushes(ws)| < |code|
    requires f.gas <= |ws| && |f.stack| + |ws| <= STACK_LIMIT
    ensures Run(h, msg, code, f).result == Failed(OutOfGas) && Run(h, msg, code, f).f.ctx == f.ctx
  {
    hide Run, Has, Code;
    if f.gas == |ws| {
      var g := PushesEvaluate(h, msg, code, f, ws);
      Starved(h, msg, code, g);
    } else {
      var (most, last) := (ws[..|ws| - 1], ws[|ws| - 1]);
      HasParts(code, f.pc, Pushes(most), Code(Literal(last)));
      PushesStarve(h, msg, code, f, most);
    }
  }
}
