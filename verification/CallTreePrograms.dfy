/** Programs over call trees: what a caller learns from its callee, and what is stored. */
module CallTreePrograms {
  import opened Bits
  import opened Words
  import opened Results
  import opened ExampleVm
  import opened ExampleVmLaws
  import opened ExampleVmMemory
  import opened ExampleVmExpressions
  import opened ExampleVmPrograms
  import opened CallTree

  /** The callee's own run: its expression on what the caller passes, at the callee's level. */
  ghost function CalleeResult(env: Env, w: World, call: Message, inner: Expr, at: uint32, end: Ending): Result {
    var (w', v) := Eval(TreeHost(env, Levels(call.depth)), call, 0, w, inner);
    ReturnResult(inner, at, end, call.gas, v, env.allocates(w', end.size))
  }

  /** Calls compose: a caller of a program that returns or reverts with an expression's value gets that program's
      result on the input it passes, with the output and the flag in its memory. */
  lemma CallComposes(env: Env, w: World, msg: Message, p: Caller, inner: Expr, at: uint32, end: Ending)
    requires env.code(msg.codeAddress) == CallProgram(p)
    requires env.code(p.call.callee) == ReturnProgram(inner, at, end)
    requires Room(p.e) <= STACK_LIMIT && Room(inner) <= STACK_LIMIT
    requires msg.gas >= CostToCall(p) && Within(p.at, 64) && Refusal(msg, p.call).None?
    ensures
      var (w1, x) := Eval(TreeHost(env, Levels(msg.depth)), msg, 0, w, p.e);
      var call := Passed(msg, p, x);
      var (w2, _) := ExecuteTree(env, w1, call);
      ExecuteTree(env, w, msg).1 ==
        CallerResult(msg, p, x, CalleeResult(env, w1, call, inner, at, end), env.allocates(w2, p.end.size))
  {
    hide Execute, Eval, CallProgram, ReturnProgram, CallerResult, ReturnResult, Granted;
    var h := TreeHost(env, Levels(msg.depth));
    PassesAndReturns(h, w, msg, p);
    var (w1, x) := Eval(h, msg, 0, w, p.e);
    var call := Passed(msg, p, x);
    PassedToChild(msg, p, x);
    TreeHostUnfolds(env, Levels(msg.depth), msg, w1, call);
    CalleeRuns(env, w1, call, inner, at, end);
  }

  lemma PassedToChild(msg: Message, p: Caller, w: word)
    requires msg.gas >= CostToCall(p) && Within(p.at, 64) && Refusal(msg, p.call).None?
    ensures ChildOf(msg, Passed(msg, p, w))
  {
    hide Value, Patched, Static;
  }

  lemma CalleeRuns(env: Env, w: World, call: Message, inner: Expr, at: uint32, end: Ending)
    requires env.code(call.codeAddress) == ReturnProgram(inner, at, end) && Room(inner) <= STACK_LIMIT
    ensures ExecuteTree(env, w, call).1 == CalleeResult(env, w, call, inner, at, end)
  {
    hide Execute, Eval, ReturnProgram, ReturnResult;
    ReturnsValue(TreeHost(env, Levels(call.depth)), w, call, inner, at, end);
    EvalKeepsWorld(env, Levels(call.depth), call, 0, w, inner);
  }

  /** The result by its parts: SUCCESS or REVERT with the output and the gas left over, if memory and gas suffice. */
  lemma ReturnResultParts(e: Expr, at: uint32, end: Ending, gas: int64, w: word)
    ensures
      var r := ReturnResult(e, at, end, gas, w, true);
      if gas >= Cost(e) + 5 && Within(at, 64) && Within(end.from, end.size) then
        && r.status == (if end.reverts then Revert else Success)
        && r.gasLeft == gas - Cost(e) - 5 && |r.output| == end.size
        && forall i: nat :: i < end.size ==>
             r.output[i] == if at <= end.from as int + i < at + 64 then w[end.from + i - at] else 0
      else r.status in {OutOfGas, Failure} && r.gasLeft == 0 && r.output == []
  {
  }

  /** The flag that the caller stores and returns is 1 when its callee succeeds, and 0 when it reverts, runs out of
      gas or fails. */
  lemma FlagTells(msg: Message, p: Caller, w: word, r: Result)
    requires msg.gas >= CostToCall(p) && Within(p.at, 64) && Refusal(msg, p.call).None?
    requires Kept(msg.gas - CostToCall(p), Granted(p.call.gas, msg.gas - CostToCall(p)), r) >= 5
    requires Within(p.flagAt, 64) && p.end == Ending(false, p.flagAt, 64)
    ensures
      var result := CallerResult(msg, p, w, r, true);
      result.status == Success && Value(result.output) == if r.status == Success then 1 else 0
  {
    hide Granted, Kept, FlagWord, Value, Patched, Replied;
    FlagWordValue(r.status == Success);
    PatchedRegion(Replied(p.call, Patched(EMPTY, p.at, w), r.output), p.flagAt, FlagWord(r.status == Success));
  }

  lemma PatchedRegion(m: seq<byte>, offset: nat, v: seq<byte>)
    requires offset + |v| <= |m|
    ensures Patched(m, offset, v)[offset..offset + |v|] == v
  {
  }

  // ---------- storage ----------

  /** Evaluating an expression changes nothing in the world. */
  lemma {:induction false} EvalKeepsWorld(env: Env, n: nat, msg: Message, size: uint32, w: World, e: Expr)
    ensures Eval(TreeHost(env, n), msg, size, w, e).0 == w
  {
    hide Sum, ToUint512, ToUint32, InputWord, Zeros, Serve;
    match e
    case Plus(left, right) =>
      EvalKeepsWorld(env, n, msg, size, w, right);
      EvalKeepsWorld(env, n, msg, size, w, left);
    case Twice(operand) => EvalKeepsWorld(env, n, msg, size, w, operand);
    case CallData(offset) => EvalKeepsWorld(env, n, msg, size, w, offset);
    case SLoad(key) => EvalKeepsWorld(env, n, msg, size, w, key);
    case _ =>
  }

  /** What the program stores is what is in the storage then, and nothing else there changes. */
  lemma StoresInTree(env: Env, w: World, msg: Message, key: Expr, value: Expr)
    requires env.code(msg.codeAddress) == SstoreProgram(key, value) && !Static(msg)
    requires Room(value) <= STACK_LIMIT && Room(key) < STACK_LIMIT && msg.gas >= Cost(key) + Cost(value) + 1
    ensures
      var h := TreeHost(env, Levels(msg.depth));
      var (v, k) := (Eval(h, msg, 0, w, value).1, Eval(h, msg, 0, w, key).1);
      var (w', r) := ExecuteTree(env, w, msg);
      && r.status == Success
      && forall account, x :: StoredAt(w', account, x) ==
           if account == msg.recipient && x == k then v else StoredAt(w, account, x)
  {
    hide Execute, Eval, SstoreProgram, Static;
    var n := Levels(msg.depth);
    StoresValue(TreeHost(env, n), w, msg, key, value);
    EvalKeepsWorld(env, n, msg, 0, w, value);
    EvalKeepsWorld(env, n, msg, 0, w, key);
  }

  /** sstore(key, add(sload(key), 1)) counts in its recipient's storage, modulo 2^32. */
  lemma Counts(env: Env, w: World, msg: Message, key: Expr)
    requires env.code(msg.codeAddress) == SstoreProgram(key, Plus(SLoad(key), Literal([1]))) && !Static(msg)
    requires Room(key) < STACK_LIMIT - 1 && msg.gas >= 2 * Cost(key) + 4
    ensures
      var k := Eval(TreeHost(env, Levels(msg.depth)), msg, 0, w, key).1;
      var w' := ExecuteTree(env, w, msg).0;
      Value(StoredAt(w', msg.recipient, k)) == (Value(StoredAt(w, msg.recipient, k)) + 1) % 0x1_0000_0000
  {
    hide ExecuteTree, SstoreProgram, Static, Value, Eval, StoredAt, Cost, Room;
    var counter := Plus(SLoad(key), Literal([1]));
    CounterCost(key);
    StoresInTree(env, w, msg, key, counter);
    CounterValue(env, Levels(msg.depth), w, msg, key);
  }

  lemma CounterCost(key: Expr)
    ensures Cost(Plus(SLoad(key), Literal([1]))) == Cost(key) + 3
    ensures Room(key) < STACK_LIMIT - 1 ==> Room(Plus(SLoad(key), Literal([1]))) <= STACK_LIMIT
  {
  }

  lemma CounterValue(env: Env, n: nat, w: World, msg: Message, key: Expr)
    ensures
      var k := Eval(TreeHost(env, n), msg, 0, w, key).1;
      Value(Eval(TreeHost(env, n), msg, 0, w, Plus(SLoad(key), Literal([1]))).1) ==
        (Value(StoredAt(w, msg.recipient, k)) + 1) % 0x1_0000_0000
  {
    hide Value, Sum, Zeros, StoredAt, Serve, ToUint32, ToUint512, InputWord;
    EvalKeepsWorld(env, n, msg, 0, w, key);
    var k := Eval(TreeHost(env, n), msg, 0, w, key).1;
    LeadingZeros(63, [1]);
    ValueOfByte(1);
    AddIsModular(StoredAt(w, msg.recipient, k), Zeros(63) + [1]);
  }
}
