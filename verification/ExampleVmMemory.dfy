/** The memory and the values of the example VM over every run. */
module ExampleVmMemory {
  import opened Bits
  import opened Words
  import opened Results
  import opened Instructions
  import opened ExampleVm

  // ---------- memory ----------

  function MaxOf(ends: seq<nat>): nat {
    if ends == [] then 0 else
      var m := MaxOf(ends[..|ends| - 1]);
      if ends[|ends| - 1] > m then ends[|ends| - 1] else m
  }

  /** The size is the largest end of any region expanded, and no byte beyond it was written. */
  ghost predicate Tracks(m: Mem, ends: seq<nat>) {
    m.size == MaxOf(ends) && forall i :: m.size <= i < MEMORY_SIZE ==> m.data[i] == 0
  }

  lemma MaxOfAppend(ends: seq<nat>, end: nat)
    ensures MaxOf(ends + [end]) == if end > MaxOf(ends) then end else MaxOf(ends)
  {
    assert (ends + [end])[..|ends|] == ends;
  }

  lemma ExpandedTracks(m: Mem, ends: seq<nat>, offset: nat, region: nat)
    requires Fits(offset, region) && Tracks(m, ends)
    ensures var e := Expanded(m, offset, region);
      Tracks(e, ends + [offset + region]) && m.size <= e.size && offset + region <= e.size
  {
    MaxOfAppend(ends, offset + region);
  }

  /** Memory::store succeeds exactly when the region fits, and then writes the value there and nothing else. */
  lemma StoredWrites(m: Mem, offset: nat, value: seq<byte>)
    ensures var (s, ok) := Stored(m, offset, value);
      && ok == (offset + |value| <= 1024)
      && (!ok ==> s == m)
      && (ok ==> s.size == if m.size < offset + |value| then offset + |value| else m.size)
      && (ok ==> forall i :: 0 <= i < MEMORY_SIZE ==>
            s.data[i] == if offset <= i < offset + |value| then value[i - offset] else m.data[i])
  {
  }

  lemma StoredTracks(m: Mem, ends: seq<nat>, offset: nat, value: seq<byte>)
    requires Fits(offset, |value|) && Tracks(m, ends)
    ensures var (s, ok) := Stored(m, offset, value);
      ok && Tracks(s, ends + [offset + |value|]) && m.size <= s.size
  {
    StoredWrites(m, offset, value);
    hide Stored, MaxOf;
    ExpandedTracks(m, ends, offset, |value|);
  }

  /** The store at the end of CALL, whose return value the VM ignores, never fails and never grows the memory. */
  lemma CallStoreSucceeds(m: Mem, offset: nat, size: nat, output: seq<byte>)
    requires Fits(offset, size) && offset + size <= m.size
    ensures var (s, ok) := Stored(m, offset, output[..Min(size, |output|)]);
      ok && s.size == m.size
  {
  }

  ghost predicate MemoryKept<C>(f: Frame<C>, f': Frame<C>) {
    && (Tracks(f.mem, f.ends) ==> Tracks(f'.mem, f'.ends))
    && f.mem.size <= f'.mem.size
    && f.ends <= f'.ends
  }

  lemma CallKeepsMemory<C>(h: Host<C>, msg: Message, f: Frame<C>)
    requires Tracks(f.mem, f.ends)
    ensures MemoryKept(f, AfterCall(h, msg, f).f)
  {
    hide ToUint32, ToUint512, Zeros, Value, Stored, MaxOf, Expanded;
    var s := AfterCall(h, msg, f);
    if s.Next? {
      var (inOffset, inSize) := (ToUint32(Top(f, 3)), ToUint32(Top(f, 4)));
      var (outOffset, outSize) := (ToUint32(Top(f, 5)), ToUint32(Top(f, 6)));
      ExpandedTracks(f.mem, f.ends, inOffset, inSize);
      var m1, ends1 := Expanded(f.mem, inOffset, inSize), f.ends + [inOffset + inSize];
      ExpandedTracks(m1, ends1, outOffset, outSize);
      var call := ChildMessage(msg, f, f.mem.data[inOffset..inOffset + inSize]);
      var output := h.call(f.ctx, call).1.output;
      StoredTracks(Expanded(m1, outOffset, outSize), ends1 + [outOffset + outSize],
                   outOffset, output[..Min(outSize, |output|)]);
      assert s.f.ends == ends1 + [outOffset + outSize] + [outOffset + Min(outSize, |output|)];
    }
  }

  lemma LocalKeepsMemory<C>(h: Host<C>, f: Frame<C>, status: Status)
    requires Tracks(f.mem, f.ends)
    ensures MemoryKept(f, AfterMstore(f).f)
    ensures MemoryKept(f, AfterReturn(h, f, status).f)
  {
    hide ToUint32, Zeros, Value, Stored, MaxOf, Expanded;
    if |f.stack| >= 2 {
      var (a, b) := (ToUint32(Top(f, 0)), ToUint32(Top(f, 1)));
      StoredWrites(f.mem, a, Top(f, 1));
      if Fits(a, 64) {
        StoredTracks(f.mem, f.ends, a, Top(f, 1));
      }
      if Fits(a, b) {
        ExpandedTracks(f.mem, f.ends, a, b);
      }
    }
  }

  lemma ExecKeepsMemory<C>(h: Host<C>, msg: Message, code: seq<byte>, f: Frame<C>)
    requires f.pc < |code| && Tracks(f.mem, f.ends)
    ensures MemoryKept(f, Exec(h, msg, code, f).f)
  {
    hide AfterCall, AfterMstore, AfterReturn;
    hide ToUint32, ToUint512, Zeros, Value, Sum, Immediate, InputWord, Tracks;
    CallKeepsMemory(h, msg, f);
    LocalKeepsMemory(h, f, Success);
    LocalKeepsMemory(h, f, Revert);
  }

  /** Over every run, from any point of it on: the size never shrinks, stays within the fixed buffer (by its
      type), is the largest end of any region expanded so far, and every byte beyond it is zero. */
  lemma {:induction false} MemoryInvariant<C>(h: Host<C>, msg: Message, code: seq<byte>, f: Frame<C>)
    requires Tracks(f.mem, f.ends)
    ensures MemoryKept(f, Run(h, msg, code, f).f)
    decreases |code| - f.pc
  {
    if f.pc < |code| && f.gas >= 1 {
      hide Exec, Tracks, Run;
      ExecKeepsMemory(h, msg, code, Charged(f));
      RunUnfolds(h, msg, code, f);
      var s := Exec(h, msg, code, Charged(f));
      if s.Next? {
        MemoryInvariant(h, msg, code, s.f);
      }
    }
  }

  /** So it is at every point of every run. */
  lemma {:induction false} ReachedTracks<C>(h: Host<C>, ctx: C, gas: Gas, msg: Message, code: seq<byte>, n: nat)
    requires After(h, msg, code, Start(ctx, gas), n).Some?
    ensures var g := After(h, msg, code, Start(ctx, gas), n).value;
      Tracks(g.mem, g.ends)
  {
    if n > 0 {
      hide Exec, Tracks, After;
      ReachedTracks(h, ctx, gas, msg, code, n - 1);
      var g := AfterLast(h, msg, code, Start(ctx, gas), n);
      ExecKeepsMemory(h, msg, code, Charged(g));
    }
  }

  // ---------- values ----------

  lemma ToUint512Value(x: uint32)
    ensures Value(ToUint512(x)) == x && ToUint32(ToUint512(x)) == x
  {
    PowersOfTwo();
    RadixIsPow2(4);
    LowBytesValue(x, 4);
    LeadingZeros(60, LowBytes(x, 4));
    assert ToUint512(x)[60..] == LowBytes(x, 4);
  }

  lemma ToUint32Value(w: word)
    ensures ToUint32(w) == Value(w) % 0x1_0000_0000
  {
    hide ToUint32, Value;
    assert w == w[..60] + w[60..];
    ValueConcat(w[..60], w[60..]);
    ValueBound(w[60..]);
    RadixOf4();
  }

  lemma RadixOf4()
    ensures Radix(4) == 0x1_0000_0000
  {
  }

  /** ADD computes the sum of the 512-bit operands modulo 2^32. */
  lemma AddIsModular(a: word, b: word)
    ensures Value(Sum(a, b)) == (Value(a) + Value(b)) % 0x1_0000_0000
  {
    hide ToUint32, ToUint512, Value;
    ToUint32Value(a);
    ToUint32Value(b);
    ToUint512Value((ToUint32(a) + ToUint32(b)) % 0x1_0000_0000);
  }

  /** PUSH pushes the number its immediate bytes denote, bytes beyond the end of the code counting as zeros. */
  lemma ImmediateValue(code: seq<byte>, pc: nat, n: nat)
    requires pc < |code| && 1 <= n <= 64
    ensures Value(Immediate(code, pc, n)) == Value((code[pc + 1..] + Zeros(n))[..n])
  {
    hide Value, Zeros, Immediate;
    ImmediateParts(code, pc, n);
    LeadingZeros(64 - n, (code[pc + 1..] + Zeros(n))[..n]);
  }

  lemma ImmediateParts(code: seq<byte>, pc: nat, n: nat)
    requires pc < |code| && 1 <= n <= 64
    ensures Immediate(code, pc, n) == Zeros(64 - n) + (code[pc + 1..] + Zeros(n))[..n]
  {
    hide Zeros;
    var rest := code[pc + 1..];
    var available := if n < |rest| then n else |rest|;
    assert code[pc + 1..pc + 1 + available] == rest[..available];
    PaddedPrefix(rest, available, n);
    Associative(Zeros(64 - n), rest[..available], Zeros(n - available));
  }

  lemma Associative(a: seq<byte>, b: seq<byte>, c: seq<byte>)
    ensures a + b + c == a + (b + c)
  {
  }

  /** CALLDATALOAD's word byte by byte: those of the input that are there, and zeros. */
  lemma InputWordBytes(input: seq<byte>, offset: nat, i: nat)
    requires i < 64
    ensures InputWord(input, offset)[i] == if offset + i < |input| then input[offset + i] else 0
  {
  }

  /** The static flag is the lowest bit: setting it changes the flags of no static message, and of all others. */
  lemma StaticFlag(msg: Message)
    ensures Static(msg) <==> Or(msg.flags, 1) == msg.flags
  {
    assert Or(msg.flags / 2, 0) == msg.flags / 2;
  }

  lemma PaddedPrefix(s: seq<byte>, available: nat, n: nat)
    requires available == if n < |s| then n else |s|
    ensures s[..available] + Zeros(n - available) == (s + Zeros(n))[..n]
  {
    hide Zeros;
  }

  /** Wherever a run reaches MSIZE, it pushes the largest end of any region expanded so far. */
  lemma MsizeValue<C>(h: Host<C>, ctx: C, gas: Gas, msg: Message, code: seq<byte>, n: nat, f: Frame<C>)
    requires After(h, msg, code, Start(ctx, gas), n) == Some(f) && f.pc < |code| && code[f.pc] == OP_MSIZE
    ensures var s := OneStep(h, msg, code, f);
      s.Next? ==> |s.f.stack| == |f.stack| + 1 && Value(s.f.stack[|f.stack|]) == MaxOf(f.ends)
  {
    hide ToUint512, Value, MaxOf, After, ToUint32, Sum, Immediate, InputWord, Stored, Zeros;
    hide AfterCall, AfterReturn, AfterSload, AfterSstore, AfterNumber, AfterMstore, AfterDup1;
    ReachedTracks(h, ctx, gas, msg, code, n);
    ToUint512Value(f.mem.size);
  }
}
