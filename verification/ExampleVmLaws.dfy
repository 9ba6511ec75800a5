/** Laws of every run of the example VM, whatever the host does. */
module ExampleVmLaws {
  import opened Bits
  import opened Words
  import opened Results
  import opened ExampleVm

  // ---------- what one instruction does to the gas and the host ----------

  /** The gas a call costs its frame: granted minus clamped return. */
  function CallCost(e: Event): (cost: int)
    ensures cost >= 0
  {
    if e.Call? && e.msg.gas >= 0 then e.msg.gas - Clamp(e.result.gasLeft, 0, e.msg.gas) else 0
  }

  function CallCosts(events: seq<Event>): (cost: nat) {
    if events == [] then 0 else CallCosts(events[..|events| - 1]) + CallCost(events[|events| - 1])
  }

  /** The message a frame may send: one level deeper and within the depth limit, on the frame's own
      behalf, in the same mode, without value if that mode is static, with an input that fits the memory. */
  predicate ChildOf(msg: Message, call: Message) {
    && call.depth == msg.depth + 1 <= 1024
    && call.flags == msg.flags
    && (Static(msg) ==> call.value == ZERO)
    && call.sender == msg.recipient
    && call.codeAddress == call.recipient
    && 0 <= call.gas < 0x1_0000_0000
    && |call.input| <= 1024
  }

  /** The use of the host a frame may make: its own storage only, and no writes in static mode. */
  predicate Permitted(msg: Message, e: Event) {
    match e
    case ReadBlockNumber => true
    case Load(account, _) => account == msg.recipient
    case Store(account, _, _) => account == msg.recipient && !Static(msg)
    case Call(call, _) => ChildOf(msg, call)
  }

  /** The host's state after answering e, and whether e records the host's answer. */
  function Answered<C>(h: Host<C>, ctx: C, e: Event): (C, bool) {
    match e
    case ReadBlockNumber => (h.blockNumber(ctx).0, true)
    case Load(account, key) => (h.getStorage(ctx, account, key).0, true)
    case Store(account, key, value) => (h.setStorage(ctx, account, key, value), true)
    case Call(call, result) => (h.call(ctx, call).0, result == h.call(ctx, call).1)
  }

  /** From f to f', the host is used at most once, as permitted, and only a call's cost is paid. */
  ghost predicate OneUse<C>(h: Host<C>, msg: Message, f: Frame<C>, f': Frame<C>) {
    if |f'.events| == |f.events| then
      f'.events == f.events && f'.ctx == f.ctx && f'.gas == f.gas
    else
      && |f'.events| == |f.events| + 1
      && var e := f'.events[|f.events|];
      && f'.events == f.events + [e]
      && Permitted(msg, e)
      && Answered(h, f.ctx, e) == (f'.ctx, true)
      && f'.gas == f.gas - CallCost(e)
  }

  /** A result keeps the frame's gas when it is SUCCESS or REVERT and has none otherwise. */
  ghost predicate GasReturned<C>(f: Frame<C>, r: Result) {
    r.gasRefund == 0 && r.gasLeft == if r.status in {Success, Revert} then f.gas else 0
  }

  ghost predicate Lawful<C>(h: Host<C>, msg: Message, f: Frame<C>, s: Step<C>) {
    OneUse(h, msg, f, s.f) && s.f.visited == f.visited && (s.Halt? ==> GasReturned(s.f, s.result))
  }

  lemma CallLawful<C>(h: Host<C>, msg: Message, f: Frame<C>)
    ensures Lawful(h, msg, f, AfterCall(h, msg, f))
  {
    hide ToUint32, ToUint512, Zeros, Value, Stored;
  }

  lemma HostLawful<C>(h: Host<C>, msg: Message, f: Frame<C>)
    ensures Lawful(h, msg, f, AfterNumber(h, f))
    ensures Lawful(h, msg, f, AfterSload(h, msg, f))
    ensures Lawful(h, msg, f, AfterSstore(h, msg, f))
  {
  }

  lemma LocalLawful<C>(h: Host<C>, msg: Message, f: Frame<C>, status: Status)
    ensures Lawful(h, msg, f, AfterMstore(f))
    ensures Lawful(h, msg, f, AfterDup1(f))
    ensures status in {Success, Revert} ==> Lawful(h, msg, f, AfterReturn(h, f, status))
  {
    hide ToUint32, Zeros, Value, Stored;
  }

  lemma PushLawful<C>(h: Host<C>, msg: Message, f: Frame<C>)
    ensures forall n: nat, w, pc :: n <= |f.stack| ==> Lawful(h, msg, f, Push(f, n, w, pc))
  {
  }

  lemma ExecLawful<C>(h: Host<C>, msg: Message, code: seq<byte>, f: Frame<C>)
    requires f.pc < |code|
    ensures Lawful(h, msg, f, Exec(h, msg, code, f))
  {
    hide AfterCall, AfterNumber, AfterSload, AfterSstore, AfterMstore, AfterDup1, AfterReturn, Push;
    hide ToUint32, ToUint512, Zeros, Value, Sum, Immediate, InputWord;
    CallLawful(h, msg, f);
    PushLawful(h, msg, f);
    HostLawful(h, msg, f);
    LocalLawful(h, msg, f, Success);
    LocalLawful(h, msg, f, Revert);
  }

  // ---------- whole runs ----------

  function Replay<C>(h: Host<C>, ctx: C, events: seq<Event>): (C, bool) {
    if events == [] then (ctx, true) else
      var (before, recorded) := Replay(h, ctx, events[..|events| - 1]);
      var (after, answered) := Answered(h, before, events[|events| - 1]);
      (after, recorded && answered)
  }

  /** The frame's history: it accounts for all the gas, it explains the host's state, and it is permitted. */
  ghost predicate Accounted<C>(h: Host<C>, ctx: C, msg: Message, f: Frame<C>) {
    && msg.gas == f.gas + |f.visited| + CallCosts(f.events)
    && Replay(h, ctx, f.events) == (f.ctx, true)
    && forall i :: 0 <= i < |f.events| ==> Permitted(msg, f.events[i])
  }

  lemma UseAccounted<C>(h: Host<C>, ctx: C, msg: Message, f: Frame<C>, f': Frame<C>)
    requires Accounted(h, ctx, msg, f) && OneUse(h, msg, f, f') && f'.visited == f.visited
    ensures Accounted(h, ctx, msg, f')
  {
    if f'.events != f.events {
      assert f'.events[..|f.events|] == f.events;
    }
  }

  lemma {:induction false} RunAccounted<C>(h: Host<C>, ctx: C, msg: Message, code: seq<byte>, f: Frame<C>)
    requires Accounted(h, ctx, msg, f)
    ensures var o := Run(h, msg, code, f);
      Accounted(h, ctx, msg, o.f) && GasReturned(o.f, o.result)
    decreases |code| - f.pc
  {
    if f.pc < |code| && f.gas >= 1 {
      hide Exec, CallCosts, Replay, Run;
      RunUnfolds(h, msg, code, f);
      var charged := Charged(f);
      var s := Exec(h, msg, code, charged);
      ExecLawful(h, msg, code, charged);
      UseAccounted(h, ctx, msg, charged, s.f);
      if s.Next? {
        RunAccounted(h, ctx, msg, code, s.f);
      }
    }
  }

  /** Exact conservation of gas: what a SUCCESS or REVERT run does not return was spent on one unit per
      instruction and on what each call was granted and did not give back; any other status returns nothing.
      Neither depends on the host reporting its gas honestly. */
  lemma GasConserved<C>(h: Host<C>, ctx: C, msg: Message, code: seq<byte>)
    ensures var o := Execute(h, ctx, msg, code);
      if msg.gas < 0 then o.result == Failed(OutOfGas) && o.f == Start(ctx, 0)
      else
        && 0 <= o.result.gasLeft <= msg.gas
        && msg.gas == o.f.gas + |o.f.visited| + CallCosts(o.f.events)
        && (o.result.status in {Success, Revert} ==>
              msg.gas == o.result.gasLeft + |o.f.visited| + CallCosts(o.f.events))
        && (o.result.status !in {Success, Revert} ==> o.result.gasLeft == 0)
  {
    if msg.gas >= 0 {
      RunAccounted(h, ctx, msg, code, Start(ctx, msg.gas));
    }
  }

  /** A frame reaches the host's state only through the host methods in its history, which are all permitted. */
  lemma HostDiscipline<C>(h: Host<C>, ctx: C, msg: Message, code: seq<byte>)
    ensures var o := Execute(h, ctx, msg, code);
      && Replay(h, ctx, o.f.events) == (o.f.ctx, true)
      && forall i :: 0 <= i < |o.f.events| ==> Permitted(msg, o.f.events[i])
  {
    if msg.gas >= 0 {
      RunAccounted(h, ctx, msg, code, Start(ctx, msg.gas));
    }
  }
}
