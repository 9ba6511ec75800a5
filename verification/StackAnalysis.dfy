/** The metrics table as a static analysis of code, sound and precise for the example VM. */
module StackAnalysis {
  import opened Bits
  import opened Words
  import opened Results
  import opened Instructions
  import opened ExampleVm

  /** The instructions the VM implements; all others end the frame. */
  predicate Implemented(op: byte) {
    || op in {OP_STOP, OP_ADD, OP_ADDRESS, OP_CALLDATALOAD, OP_NUMBER, OP_MSTORE, OP_SLOAD, OP_SSTORE,
              OP_MSIZE, OP_DUP1, OP_CALL, OP_RETURN, OP_REVERT}
    || OP_PUSH1 <= op <= OP_PUSH64
  }

  /** The implemented instructions that always end the frame. */
  predicate Ends(op: byte) {
    op in {OP_STOP, OP_RETURN, OP_REVERT}
  }

  /** The table defines every implemented instruction, and no instruction takes more items than it requires. */
  lemma TableCoversVm(op: byte)
    ensures Implemented(op) ==> MetricsOf(op).Metrics?
    ensures MetricsOf(op).Metrics? ==> MetricsOf(op).required + MetricsOf(op).change >= 0
  {
  }

  // ---------- the decoding ----------

  function NextPc(code: seq<byte>, pc: nat): nat
    requires pc < |code|
  {
    pc + 1 + Immediates(code[pc])
  }

  /** The pcs of the instructions from pc on, found without running the code. */
  function Decode(code: seq<byte>, pc: nat): seq<nat>
    decreases |code| - pc
  {
    if pc >= |code| then [] else [pc] + Decode(code, NextPc(code, pc))
  }

  /** The sum of the table's stack_height_change over the given instructions. */
  function Height(code: seq<byte>, pcs: seq<nat>): int {
    if pcs == [] then 0 else
      var m := if pcs[|pcs| - 1] < |code| then MetricsOf(code[pcs[|pcs| - 1]]) else Undefined;
      Height(code, pcs[..|pcs| - 1]) + if m.Metrics? then m.change else 0
  }

  /** The table lets the instructions run in this order: each finds the items it requires and keeps the limit. */
  predicate Passable(code: seq<byte>, pcs: seq<nat>) {
    pcs == [] ||
    var before, pc := pcs[..|pcs| - 1], pcs[|pcs| - 1];
    && Passable(code, before)
    && pc < |code| && MetricsOf(code[pc]).Metrics?
    && MetricsOf(code[pc]).required <= Height(code, before)
    && Height(code, pcs) <= STACK_LIMIT
  }

  // ---------- the analysis ----------

  /** The stack error the table predicts at the given height, SUCCESS for none. */
  function StackError(m: Metrics, height: int): Status
    requires m.Metrics?
  {
    if height < m.required then StackUnderflow
    else if height + m.change > STACK_LIMIT then StackOverflow
    else Success
  }

  datatype Verdict = Accept | Reject(pc: nat, error: Status)

  /** Walks the decoding with the table's heights, up to the first instruction no run can pass. */
  function Analyse(code: seq<byte>, pc: nat, height: int): (v: Verdict)
    ensures v.Reject? ==> pc <= v.pc < |code|
    decreases |code| - pc
  {
    if pc >= |code| || !Implemented(code[pc]) then Accept else
      TableCoversVm(code[pc]);
      var m := MetricsOf(code[pc]);
      var error := StackError(m, height);
      if error != Success then Reject(pc, error)
      else if Ends(code[pc]) then Accept
      else Analyse(code, NextPc(code, pc), height + m.change)
  }

  /** A rejection is right by the table: the named instruction is in the decoding, those before it all go on and
      may pass, and it may not, for the named reason. */
  lemma RejectionRight(code: seq<byte>)
    ensures var v := Analyse(code, 0, 0);
      v.Reject? ==> exists k: nat :: k < |Decode(code, 0)| && Rejects(code, v, Decode(code, 0), k)
  {
    hide MetricsOf, Decode, Analyse;
    assert [] + Decode(code, 0) == Decode(code, 0);
    RejectionFrom(code, [], 0);
  }

  ghost predicate Rejects(code: seq<byte>, v: Verdict, pcs: seq<nat>, k: nat)
    requires v.Reject? && k < |pcs|
  {
    && pcs[k] == v.pc < |code|
    && (forall i :: 0 <= i < k ==> pcs[i] < |code| && Implemented(code[pcs[i]]) && !Ends(code[pcs[i]]))
    && Passable(code, pcs[..k]) && Implemented(code[v.pc])
    && var (m, height) := (MetricsOf(code[v.pc]), Height(code, pcs[..k]));
    && m.Metrics?
    && if m.required > height then v.error == StackUnderflow
       else v.error == StackOverflow && height + m.change > 1024
  }

  lemma {:induction false} RejectionFrom(code: seq<byte>, before: seq<nat>, pc: nat)
    requires Passable(code, before) && before + Decode(code, pc) == Decode(code, 0)
    requires forall i :: 0 <= i < |before| ==>
      before[i] < |code| && Implemented(code[before[i]]) && !Ends(code[before[i]])
    ensures var v := Analyse(code, pc, Height(code, before));
      v.Reject? ==> exists k: nat :: k < |Decode(code, 0)| && Rejects(code, v, Decode(code, 0), k)
    decreases |code| - pc
  {
    hide MetricsOf, Implemented, Ends;
    var v := Analyse(code, pc, Height(code, before));
    if v.Reject? {
      TableCoversVm(code[pc]);
      hide Decode, Passable, Height;
      DecodeNext(code, pc);
      if StackError(MetricsOf(code[pc]), Height(code, before)) != Success {
        RejectedAfter(code, before, pc, Decode(code, NextPc(code, pc)), v);
      } else {
        PassableAppend(code, before, pc);
        assert before + Decode(code, pc) == before + [pc] + Decode(code, NextPc(code, pc));
        RejectionFrom(code, before + [pc], NextPc(code, pc));
      }
    }
  }

  lemma RejectedAfter(code: seq<byte>, before: seq<nat>, pc: nat, after: seq<nat>, v: Verdict)
    requires Passable(code, before) && pc < |code| && Implemented(code[pc]) && MetricsOf(code[pc]).Metrics?
    requires forall i :: 0 <= i < |before| ==>
      before[i] < |code| && Implemented(code[before[i]]) && !Ends(code[before[i]])
    requires v.Reject? && v.pc == pc && v.error == StackError(MetricsOf(code[pc]), Height(code, before)) != Success
    ensures Rejects(code, v, before + ([pc] + after), |before|)
  {
    hide MetricsOf, Implemented, Ends, Passable, Height;
    assert (before + ([pc] + after))[..|before|] == before;
  }

  lemma DecodeNext(code: seq<byte>, pc: nat)
    requires pc < |code|
    ensures Decode(code, pc) == [pc] + Decode(code, NextPc(code, pc))
  {
  }

  // ---------- one instruction agrees with the table ----------

  /** CALL looks at the depth and at the mode before it has taken all its operands. */
  ghost predicate RefusedEarly<C>(msg: Message, code: seq<byte>, f: Frame<C>, status: Status)
    requires f.pc < |code|
  {
    && code[f.pc] == OP_CALL && |f.stack| >= 3
    && if msg.depth >= DEPTH_LIMIT then status == CallDepthExceeded
       else Static(msg) && Top(f, 2) != ZERO && status == StaticModeViolation
  }

  /** How the step s of the instruction at f.pc relates to the instruction's row m of the table. */
  ghost predicate Agrees<C>(msg: Message, code: seq<byte>, f: Frame<C>, s: Step<C>)
    requires f.pc < |code|
  {
    var op, m := code[f.pc], MetricsOf(code[f.pc]);
    && s.f.visited == f.visited
    && match s
       case Next(f') =>
         && Implemented(op) && !Ends(op)
         && m.Metrics? && m.required <= |f.stack|
         && |f'.stack| == |f.stack| + m.change <= STACK_LIMIT
         && f'.pc == NextPc(code, f.pc)
       case Halt(_, result) =>
         if !Implemented(op) then result.status == UndefinedInstruction else
           && m.Metrics?
           && var error := StackError(m, |f.stack|);
           && (result.status in {StackUnderflow, StackOverflow} ==> error == result.status)
           && (error != Success ==> result.status == error || RefusedEarly(msg, code, f, result.status))
  }

  lemma CallAgrees<C>(h: Host<C>, msg: Message, code: seq<byte>, f: Frame<C>)
    requires f.pc < |code| && code[f.pc] == OP_CALL && |f.stack| <= STACK_LIMIT
    ensures Agrees(msg, code, f, AfterCall(h, msg, f))
  {
    hide ToUint32, ToUint512, Zeros, Value, Stored, Expanded;
  }

  lemma ExecAgrees<C>(h: Host<C>, msg: Message, code: seq<byte>, f: Frame<C>)
    requires f.pc < |code| && |f.stack| <= STACK_LIMIT
    ensures Agrees(msg, code, f, Exec(h, msg, code, f))
  {
    hide ToUint32, ToUint512, Zeros, Value, Sum, Immediate, InputWord, Stored, Expanded, AfterCall;
    if code[f.pc] == OP_CALL {
      CallAgrees(h, msg, code, f);
    }
  }

  // ---------- whole runs ----------

  lemma PassableAppend(code: seq<byte>, pcs: seq<nat>, pc: nat)
    requires Passable(code, pcs) && pc < |code| && MetricsOf(code[pc]).Metrics?
    requires MetricsOf(code[pc]).required <= Height(code, pcs)
    requires Height(code, pcs) + MetricsOf(code[pc]).change <= STACK_LIMIT
    ensures Height(code, pcs + [pc]) == Height(code, pcs) + MetricsOf(code[pc]).change
    ensures Passable(code, pcs + [pc])
  {
    hide MetricsOf;
    assert (pcs + [pc])[..|pcs|] == pcs;
  }

  /** The frame is where the static decoding and the table's heights say. */
  ghost predicate IsStatic<C>(code: seq<byte>, g: Frame<C>) {
    && g.visited + Decode(code, g.pc) == Decode(code, 0)
    && |g.stack| == Height(code, g.visited) <= 1024
    && Passable(code, g.visited)
  }

  lemma StaticStep<C>(msg: Message, code: seq<byte>, g: Frame<C>, g': Frame<C>)
    requires IsStatic(code, g) && g.pc < |code| && g.gas >= 1 && Agrees(msg, code, Charged(g), Next(g'))
    ensures IsStatic(code, g') && |g'.visited| == |g.visited| + 1
  {
    hide MetricsOf, Implemented, Ends, Height, Passable, Decode;
    PassableAppend(code, g.visited, g.pc);
    DecodeNext(code, g.pc);
    assert g'.visited == g.visited + [g.pc];
  }

  /** The run after n instructions is where the static decoding says, at the height the table says, and the
      table lets those instructions run. No host, message or gas changes any of it. */
  lemma {:induction false} HeightsAreStatic<C>(h: Host<C>, ctx: C, gas: Gas, msg: Message, code: seq<byte>, n: nat)
    requires After(h, msg, code, Start(ctx, gas), n).Some?
    ensures var g := After(h, msg, code, Start(ctx, gas), n).value;
      && |g.visited| == n
      && g.visited + Decode(code, g.pc) == Decode(code, 0)
      && |g.stack| == Height(code, g.visited) <= 1024
      && Passable(code, g.visited)
  {
    if n > 0 {
      hide MetricsOf, Exec, Implemented, Ends, Height, Passable, After, Decode;
      HeightsAreStatic(h, ctx, gas, msg, code, n - 1);
      var g := AfterLast(h, msg, code, Start(ctx, gas), n);
      ExecAgrees(h, msg, code, Charged(g));
      StaticStep(msg, code, g, After(h, msg, code, Start(ctx, gas), n).value);
    } else {
      hide Exec, MetricsOf;
    }
  }

  /** The pcs a run charges are a prefix of the static decoding. */
  lemma {:induction false} VisitsDecoding<C>(h: Host<C>, msg: Message, code: seq<byte>, f: Frame<C>)
    requires |f.stack| <= STACK_LIMIT
    ensures Run(h, msg, code, f).f.visited <= f.visited + Decode(code, f.pc)
    ensures f.visited <= Run(h, msg, code, f).f.visited
    decreases |code| - f.pc
  {
    if f.pc < |code| && f.gas >= 1 {
      hide MetricsOf, Exec, Implemented, Ends, Run;
      var charged := Charged(f);
      ExecAgrees(h, msg, code, charged);
      RunUnfolds(h, msg, code, f);
      var s := Exec(h, msg, code, charged);
      if s.Next? {
        VisitsDecoding(h, msg, code, s.f);
      }
      assert f.visited + Decode(code, f.pc) == charged.visited + Decode(code, NextPc(code, f.pc));
      assert s.f.visited == charged.visited;
    } else {
      hide Exec, MetricsOf;
    }
  }

  /** How the verdict relates to the pcs a run charges and to its status: a stack error is one the verdict
      names, where it names it; and a run that arrives there ends there, with that error unless the
      instruction is a CALL refused for its depth or mode. */
  ghost predicate Explains(verdict: Verdict, charged: seq<nat>, status: Status, code: seq<byte>) {
    && (status in {StackUnderflow, StackOverflow} ==>
          charged != [] && verdict == Reject(charged[|charged| - 1], status))
    && (verdict.Reject? ==> forall i :: 0 <= i < |charged| && charged[i] == verdict.pc ==>
          && i == |charged| - 1
          && (status == verdict.error ||
              (verdict.pc < |code| && code[verdict.pc] == OP_CALL &&
               status in {CallDepthExceeded, StaticModeViolation})))
  }

  lemma ExplainsLater(verdict: Verdict, pc: nat, charged: seq<nat>, status: Status, code: seq<byte>)
    requires Explains(verdict, charged, status, code) && (verdict.Reject? ==> pc < verdict.pc)
    ensures Explains(verdict, [pc] + charged, status, code)
  {
  }

  lemma HaltExplained<C>(msg: Message, code: seq<byte>, f: Frame<C>, s: Step<C>)
    requires f.pc < |code| && s.Halt? && Agrees(msg, code, f, s)
    ensures Explains(Analyse(code, f.pc, |f.stack|), [f.pc], s.result.status, code)
  {
    hide MetricsOf, Implemented;
  }

  lemma NextExplained<C>(msg: Message, code: seq<byte>, f: Frame<C>, s: Step<C>, charged: seq<nat>, status: Status)
    requires f.pc < |code| && s.Next? && Agrees(msg, code, f, s)
    requires Explains(Analyse(code, s.f.pc, |s.f.stack|), charged, status, code)
    ensures Explains(Analyse(code, f.pc, |f.stack|), [f.pc] + charged, status, code)
  {
    hide MetricsOf, Implemented, Explains;
    ExplainsLater(Analyse(code, s.f.pc, |s.f.stack|), f.pc, charged, status, code);
  }

  lemma NothingExplained(verdict: Verdict, status: Status, code: seq<byte>)
    requires status !in {StackUnderflow, StackOverflow}
    ensures Explains(verdict, [], status, code)
  {
  }

  lemma {:induction false} RunExplained<C>(h: Host<C>, msg: Message, code: seq<byte>, f: Frame<C>)
    requires |f.stack| <= STACK_LIMIT
    ensures var o := Run(h, msg, code, f);
      f.visited <= o.f.visited &&
      Explains(Analyse(code, f.pc, |f.stack|), o.f.visited[|f.visited|..], o.result.status, code)
    decreases |code| - f.pc
  {
    VisitsDecoding(h, msg, code, f);
    if f.pc < |code| && f.gas >= 1 {
      hide Exec, MetricsOf, Implemented, Ends, Explains, Analyse, Run;
      ExecAgrees(h, msg, code, Charged(f));
      RunUnfolds(h, msg, code, f);
      var s, o := Exec(h, msg, code, Charged(f)), Run(h, msg, code, f);
      if s.Next? {
        RunExplained(h, msg, code, s.f);
        assert o.f.visited[|f.visited|..] == [f.pc] + o.f.visited[|s.f.visited|..];
        NextExplained(msg, code, Charged(f), s, o.f.visited[|s.f.visited|..], o.result.status);
      } else {
        assert o.f.visited[|f.visited|..] == [f.pc];
        HaltExplained(msg, code, Charged(f), s);
      }
    } else {
      hide Explains, Analyse;
      NothingExplained(Analyse(code, f.pc, |f.stack|), Run(h, msg, code, f).result.status, code);
    }
  }

  /** The metrics table predicts the stack errors: code it accepts never ends in one, whatever the host, and
      code it rejects is never run past the instruction it names. */
  lemma AnalysisSound<C>(h: Host<C>, ctx: C, msg: Message, code: seq<byte>)
    ensures var o, verdict := Execute(h, ctx, msg, code), Analyse(code, 0, 0);
      && o.f.visited <= Decode(code, 0)
      && (verdict.Accept? ==> o.result.status !in {StackUnderflow, StackOverflow})
      && Explains(verdict, o.f.visited, o.result.status, code)
  {
    hide MetricsOf, Analyse, Decode, Run;
    if msg.gas >= 0 {
      RunExplained(h, msg, code, Start(ctx, msg.gas));
      VisitsDecoding(h, msg, code, Start(ctx, msg.gas));
    }
  }
}
