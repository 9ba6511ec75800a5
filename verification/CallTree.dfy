/** Whole call trees: a host whose `call` runs the example VM on the callee's code. */
module CallTree {
  import opened Bits
  import opened Words
  import opened Results
  import opened ExampleVm
  import opened ExampleVmLaws

  /** One executed frame: its message, the pcs it was charged for, its use of the host, its status and the gas that
      it had left and does not return. */
  datatype FrameRecord = FrameRecord(msg: Message, charged: seq<nat>, events: seq<Event>, status: Status,
                                     forfeited: nat)

  /** The storage of all accounts, and the records of the finished frames. */
  datatype World = World(storage: map<(word, word), word>, frames: seq<FrameRecord>)

  /** What does not change: the code of the accounts, the block, and when malloc succeeds. */
  datatype Env = Env(code: word -> seq<byte>, blockNumber: int64, allocates: (World, nat) -> bool)

  function Finished(msg: Message, o: Outcome<World>): (World, Result) {
    (o.f.ctx.(frames := o.f.ctx.frames + [RecordOf(msg, o)]), o.result)
  }

  predicate Returns(status: Status) {
    status in {Success, Revert}
  }

  function RecordOf(msg: Message, o: Outcome<World>): FrameRecord {
    FrameRecord(msg, o.f.visited, o.f.events, o.result.status, if Returns(o.result.status) then 0 else o.f.gas)
  }

  function StoredAt(w: World, account: word, key: word): word {
    if (account, key) in w.storage then w.storage[(account, key)] else ZERO
  }

  /** The host that serves calls up to n levels deep. TreeHostUnfolds shows that the VM's own depth limit
      makes the bound unobservable. */
  function TreeHost(env: Env, n: nat): Host<World>
    decreases n, 1
  {
    Host(
      (w: World) => (w, env.blockNumber),
      (w: World, account: word, key: word) => (w, StoredAt(w, account, key)),
      (w: World, account: word, key: word, value: word) =>
        w.(storage := w.storage[(account, key) := value]),
      (w: World, call: Message) => Serve(env, n, w, call),
      env.allocates)
  }

  function Serve(env: Env, n: nat, w: World, call: Message): (World, Result)
    decreases n, 0
  {
    if n == 0 then (w, Failed(OtherStatus(-1))) else
      Finished(call, Execute(TreeHost(env, n - 1), w, call, env.code(call.codeAddress)))
  }

  /** The levels below a message of the given depth. */
  function Levels(depth: int32): nat {
    if depth >= DEPTH_LIMIT then 0 else DEPTH_LIMIT - depth
  }

  /** A whole call tree from its root message. */
  function ExecuteTree(env: Env, w: World, msg: Message): (World, Result) {
    Finished(msg, Execute(TreeHost(env, Levels(msg.depth)), w, msg, env.code(msg.codeAddress)))
  }

  // ---------- the bound on the levels is unobservable ----------

  ghost predicate SameFor<C(!new)>(h: Host<C>, g: Host<C>, msg: Message) {
    && (forall c :: h.blockNumber(c) == g.blockNumber(c))
    && (forall c, a, k :: h.getStorage(c, a, k) == g.getStorage(c, a, k))
    && (forall c, a, k, v :: h.setStorage(c, a, k, v) == g.setStorage(c, a, k, v))
    && (forall c, n :: h.allocates(c, n) == g.allocates(c, n))
    && (forall c, m :: ChildOf(msg, m) ==> h.call(c, m) == g.call(c, m))
  }

  lemma SameCall<C(!new)>(h: Host<C>, g: Host<C>, msg: Message, f: Frame<C>)
    requires SameFor(h, g, msg)
    ensures AfterCall(h, msg, f) == AfterCall(g, msg, f)
  {
    hide ToUint32, ToUint512, Zeros, Value, Stored, Expanded, AfterReply;
  }

  lemma SameExec<C(!new)>(h: Host<C>, g: Host<C>, msg: Message, code: seq<byte>, f: Frame<C>)
    requires SameFor(h, g, msg) && f.pc < |code|
    ensures Exec(h, msg, code, f) == Exec(g, msg, code, f)
  {
    hide ToUint32, ToUint512, Zeros, Value, Sum, Immediate, InputWord, Stored, Expanded, AfterCall;
    SameCall(h, g, msg, f);
  }

  lemma {:induction false} SameRun<C(!new)>(h: Host<C>, g: Host<C>, msg: Message, code: seq<byte>, f: Frame<C>)
    requires SameFor(h, g, msg)
    ensures Run(h, msg, code, f) == Run(g, msg, code, f)
    decreases |code| - f.pc
  {
    if f.pc < |code| {
      hide Exec, SameFor;
      if f.gas >= 1 {
        SameExec(h, g, msg, code, ExampleVm.Charged(f));
      }
      var s := OneStep(h, msg, code, f);
      assert s == OneStep(g, msg, code, f);
      if s.Next? {
        SameRun(h, g, msg, code, s.f);
      }
    }
  }

  lemma SameExecute<C(!new)>(h: Host<C>, g: Host<C>, ctx: C, msg: Message, code: seq<byte>)
    requires SameFor(h, g, msg)
    ensures Execute(h, ctx, msg, code) == Execute(g, ctx, msg, code)
  {
    hide Run, SameFor;
    if msg.gas >= 0 {
      SameRun(h, g, msg, code, Start(ctx, msg.gas));
    }
  }

  lemma {:induction false} TreeHostsAgree(env: Env, n: nat, k: nat, msg: Message)
    requires n >= Levels(msg.depth) && k >= Levels(msg.depth)
    ensures SameFor(TreeHost(env, n), TreeHost(env, k), msg)
    decreases n, 1
  {
    hide Serve;
    forall w, m | ChildOf(msg, m)
      ensures Serve(env, n, w, m) == Serve(env, k, w, m)
    {
      ServesAgree(env, n, k, w, m);
    }
  }

  lemma {:induction false} ServesAgree(env: Env, n: nat, k: nat, w: World, call: Message)
    requires call.depth <= DEPTH_LIMIT && n > Levels(call.depth) && k > Levels(call.depth)
    ensures Serve(env, n, w, call) == Serve(env, k, w, call)
    decreases n, 0
  {
    hide Execute, TreeHost, SameFor;
    TreeHostsAgree(env, n - 1, k - 1, call);
    SameExecute(TreeHost(env, n - 1), TreeHost(env, k - 1), w, call, env.code(call.codeAddress));
  }

  /** The recursion equation of call trees: any call a frame makes is itself a whole call tree. So the tree
      terminates because of the VM's check of the depth, not because of the host's bound. */
  lemma TreeHostUnfolds(env: Env, n: nat, msg: Message, w: World, call: Message)
    requires n >= Levels(msg.depth) && ChildOf(msg, call)
    ensures TreeHost(env, n).call(w, call) == ExecuteTree(env, w, call)
  {
    hide Execute;
    ServesAgree(env, n, Levels(call.depth) + 1, w, call);
  }

  // ---------- what every call tree keeps ----------

  function Charged(frames: seq<FrameRecord>): nat {
    if frames == [] then 0 else Charged(frames[..|frames| - 1]) + |frames[|frames| - 1].charged|
  }

  function Forfeited(frames: seq<FrameRecord>): nat {
    if frames == [] then 0 else Forfeited(frames[..|frames| - 1]) + frames[|frames| - 1].forfeited
  }

  lemma {:induction false} ForfeitedGrows(frames: seq<FrameRecord>, frames': seq<FrameRecord>)
    requires frames <= frames'
    ensures Forfeited(frames) <= Forfeited(frames')
    ensures (forall i :: |frames| <= i < |frames'| ==> frames'[i].forfeited == 0) ==>
      Forfeited(frames) == Forfeited(frames')
    decreases |frames'|
  {
    if frames != frames' {
      ForfeitedGrows(frames, frames'[..|frames'| - 1]);
    }
  }

  /** A frame of the tree of root: below it and within the depth limit, in the same mode, and using only its
      own storage and only messages a frame may send. */
  ghost predicate GoodFrame(root: Message, r: FrameRecord) {
    && (r.msg == root || root.depth < r.msg.depth <= 1024)
    && r.msg.flags == root.flags
    && (r.msg != root && Static(root) ==> r.msg.value == ZERO)
    && (Returns(r.status) ==> r.forfeited == 0)
    && forall i :: 0 <= i < |r.events| ==> Permitted(r.msg, r.events[i])
  }

  ghost predicate Recipient(account: word, frames: seq<FrameRecord>, from: nat) {
    exists i :: from <= i < |frames| && frames[i].msg.recipient == account
  }

  /** From w to w', frames of the tree of root finished, whose instructions and forfeits are `budget` in all; and
      accounts outside `own` and other than these frames' recipients kept their storage. */
  ghost predicate Grown(root: Message, w: World, w': World, budget: int, own: set<word>) {
    && w.frames <= w'.frames
    && (forall i :: |w.frames| <= i < |w'.frames| ==> GoodFrame(root, w'.frames[i]))
    && Charged(w'.frames) + Forfeited(w'.frames) == Charged(w.frames) + Forfeited(w.frames) + budget
    && (Static(root) ==> w'.storage == w.storage)
    && forall account, key ::
         account !in own && !Recipient(account, w'.frames, |w.frames|) ==>
           StoredAt(w', account, key) == StoredAt(w, account, key)
  }

  lemma GrownTwice(root: Message, w: World, w1: World, w2: World, b1: int, b2: int, own: set<word>)
    requires Grown(root, w, w1, b1, own) && Grown(root, w1, w2, b2, own)
    ensures Grown(root, w, w2, b1 + b2, own)
  {
    assert forall i :: |w.frames| <= i < |w1.frames| ==> w2.frames[i] == w1.frames[i];
    forall account, key | account !in own && !Recipient(account, w2.frames, |w.frames|)
      ensures StoredAt(w2, account, key) == StoredAt(w, account, key)
    {
      assert !Recipient(account, w1.frames, |w.frames|);
      assert !Recipient(account, w2.frames, |w1.frames|);
    }
  }

  lemma ChildGrown(root: Message, call: Message, w: World, w': World, budget: int, own: set<word>)
    requires ChildOf(root, call) && Grown(call, w, w', budget, {})
    ensures Grown(root, w, w', budget, own)
  {
    forall i | |w.frames| <= i < |w'.frames|
      ensures GoodFrame(root, w'.frames[i])
    {
      assert GoodFrame(call, w'.frames[i]);
    }
  }

  /** A permitted event grows the world by its cost. */
  lemma EventGrows(env: Env, n: nat, msg: Message, w: World, e: Event)
    requires n == Levels(msg.depth) && Permitted(msg, e) && Answered(TreeHost(env, n), w, e).1
    ensures Grown(msg, w, Answered(TreeHost(env, n), w, e).0, CallCost(e), {msg.recipient})
    decreases n, 1
  {
    hide Serve;
    match e
    case Call(call, result) =>
      TreeHostUnfolds(env, n, msg, w, call);
      TreeGrows(env, w, call);
      ChildGrown(msg, call, w, ExecuteTree(env, w, call).0, CallCost(e), {msg.recipient});
    case _ =>
  }

  lemma {:induction false} ReplayGrows(env: Env, n: nat, msg: Message, w: World, events: seq<Event>)
    requires n == Levels(msg.depth) && Replay(TreeHost(env, n), w, events).1
    requires forall i :: 0 <= i < |events| ==> Permitted(msg, events[i])
    ensures Grown(msg, w, Replay(TreeHost(env, n), w, events).0, CallCosts(events), {msg.recipient})
    decreases n, 2, |events|
  {
    if events != [] {
      hide TreeHost, Grown;
      var before := Replay(TreeHost(env, n), w, events[..|events| - 1]).0;
      ReplayGrows(env, n, msg, w, events[..|events| - 1]);
      EventGrows(env, n, msg, before, events[|events| - 1]);
      GrownTwice(msg, w, before, Replay(TreeHost(env, n), w, events).0,
                 CallCosts(events[..|events| - 1]), CallCost(events[|events| - 1]), {msg.recipient});
    }
  }

  /** The gas that a root message with this result does not get back. */
  function Spent(msg: Message, r: Result): int {
    if msg.gas < 0 then 0 else msg.gas - r.gasLeft
  }

  /** Every call tree: no frame exceeds the depth limit unless the root does; the gas that the root does not get back
      is one unit for each instruction charged in any frame and what the failing frames forfeit, so it is exactly the
      instructions when every frame returns its gas; a static root makes every frame static, every call valueless
      and the storage unchanged; and only the recipients of the tree's frames can have their storage changed. */
  lemma {:induction false} TreeGrows(env: Env, w: World, msg: Message)
    ensures var (w', r) := ExecuteTree(env, w, msg);
      && Grown(msg, w, w', Spent(msg, r), {})
      && Charged(w'.frames) <= Charged(w.frames) + Spent(msg, r)
      && ((forall i :: |w.frames| <= i < |w'.frames| ==> Returns(w'.frames[i].status)) ==>
            Charged(w'.frames) == Charged(w.frames) + Spent(msg, r))
      && 0 <= r.gasLeft && (msg.gas >= 0 ==> r.gasLeft <= msg.gas)
    decreases Levels(msg.depth), 3
  {
    hide TreeHost, Execute;
    var n, code := Levels(msg.depth), env.code(msg.codeAddress);
    var o := Execute(TreeHost(env, n), w, msg, code);
    GasConserved(TreeHost(env, n), w, msg, code);
    HostDiscipline(TreeHost(env, n), w, msg, code);
    ReplayGrows(env, n, msg, w, o.f.events);
    RecordGrows(msg, w, o, CallCosts(o.f.events));
    var (w', r) := ExecuteTree(env, w, msg);
    assert Grown(msg, w, w', Spent(msg, r), {});
    ForfeitedGrows(w.frames, w'.frames);
    assert forall i :: |w.frames| <= i < |w'.frames| ==> GoodFrame(msg, w'.frames[i]);
  }

  lemma RecordGrows(msg: Message, w: World, o: Outcome<World>, budget: int)
    requires Grown(msg, w, o.f.ctx, budget, {msg.recipient})
    requires forall i :: 0 <= i < |o.f.events| ==> Permitted(msg, o.f.events[i])
    ensures Grown(msg, w, Finished(msg, o).0, budget + |o.f.visited| + RecordOf(msg, o).forfeited, {})
  {
    hide Charged, Forfeited, Permitted, Returns;
    var w1, w2, r := o.f.ctx, Finished(msg, o).0, RecordOf(msg, o);
    OneMoreFrame(w1.frames, r);
    assert GoodFrame(msg, r) by { OwnFrameGood(msg, o); }
    forall account, key | !Recipient(account, w2.frames, |w.frames|)
      ensures StoredAt(w2, account, key) == StoredAt(w, account, key)
    {
      RecipientsKept(account, w1.frames, r, |w.frames|);
    }
  }

  lemma OneMoreFrame(frames: seq<FrameRecord>, r: FrameRecord)
    ensures Charged(frames + [r]) == Charged(frames) + |r.charged|
    ensures Forfeited(frames + [r]) == Forfeited(frames) + r.forfeited
  {
    assert (frames + [r])[..|frames|] == frames;
  }

  lemma OwnFrameGood(msg: Message, o: Outcome<World>)
    requires forall i :: 0 <= i < |o.f.events| ==> Permitted(msg, o.f.events[i])
    ensures GoodFrame(msg, RecordOf(msg, o))
  {
    hide Permitted;
  }

  lemma RecipientsKept(account: word, frames: seq<FrameRecord>, r: FrameRecord, from: nat)
    requires from <= |frames| && !Recipient(account, frames + [r], from)
    ensures account != r.msg.recipient && !Recipient(account, frames, from)
  {
    assert (frames + [r])[|frames|] == r;
    assert forall i :: from <= i < |frames| ==> (frames + [r])[i] == frames[i];
  }
}
