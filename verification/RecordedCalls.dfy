/** The recorded calls of the mocked host: messages pointing into a store of input copies, whose buffers are
    destroyed when the store is cleared or grows (mocked_host.hpp). */
module RecordedCalls {
  import opened Bits
  import opened Words

  const MAX_RECORDED_CALLS: nat := 100

  /** A message as the host receives and records it. The pointer to the input is a buffer and an offset into it; a
      null pointer is a null buffer. */
  datatype CallMessage = CallMessage(flags: uint32, depth: int32, gas: int64, recipient: word, sender: word,
                                     value: word, codeAddress: word,
                                     inputData: array?<byte>, inputOffset: nat, inputSize: nat)

  predicate InBounds(msg: CallMessage) {
    msg.inputData != null ==> msg.inputOffset + msg.inputSize <= msg.inputData.Length
  }

  /** The bytes that the message passes. */
  ghost function Passed(msg: CallMessage): seq<byte>
    requires InBounds(msg)
    reads if msg.inputData != null then {msg.inputData} else {}
  {
    if msg.inputData == null then [] else msg.inputData[msg.inputOffset..msg.inputOffset + msg.inputSize]
  }

  /** The first position of the buffer in the store. */
  function Position(b: array<byte>, store: seq<array<byte>>): (i: nat)
    requires b in store
    ensures i < |store| && store[i] == b
  {
    if store[0] == b then 0 else 1 + Position(b, store[1..])
  }

  lemma {:induction false} FirstPosition(b: array<byte>, store: seq<array<byte>>, i: nat)
    requires i < |store| && store[i] == b && forall j :: 0 <= j < i ==> store[j] != b
    ensures Position(b, store) == i
  {
    if i > 0 {
      FirstPosition(b, store[1..], i - 1);
    }
  }

  /** The message with a pointer to a buffer of one store replaced by that to the same position in another. */
  function Repointed(msg: CallMessage, from: seq<array<byte>>, to: seq<array<byte>>): CallMessage
    requires |from| == |to|
  {
    if msg.inputData == null || msg.inputOffset != 0 || msg.inputData !in from then msg
    else msg.(inputData := to[Position(msg.inputData, from)])
  }

  class CallRecorder {
    var recordedCalls: seq<CallMessage>
    /** The vector of input copies: its buffers and its capacity. Growing beyond the capacity moves every
        buffer, which invalidates all pointers to them. */
    var inputs: seq<array<byte>>
    var inputsCapacity: nat
    /** The buffers of the store that are no more. */
    ghost var destroyed: set<array<byte>>
    /** The bytes passed by each recorded call when it was made. */
    ghost var passed: seq<seq<byte>>

    /** Nothing points outside the store, nothing in it has moved, and it never needs to grow. */
    ghost predicate Valid()
      reads this, inputs
    {
      && |inputs| <= inputsCapacity
      && (forall i :: 0 <= i < |inputs| ==> inputs[i] !in destroyed)
      && |passed| == |recordedCalls| <= MAX_RECORDED_CALLS
      && (recordedCalls != [] ==> |inputs| <= |recordedCalls| && MAX_RECORDED_CALLS <= inputsCapacity)
      && forall k :: 0 <= k < |recordedCalls| ==> Backed(recordedCalls[k], passed[k])
    }

    /** The recorded message has the given bytes: none, or a buffer of the store that holds them. */
    ghost predicate Backed(msg: CallMessage, bytes: seq<byte>)
      reads this, inputs
    {
      msg.inputOffset == 0 &&
      if bytes == [] then msg.inputData == null && msg.inputSize == 0
      else
        && msg.inputData != null && msg.inputData in inputs
        && msg.inputData[..] == bytes && msg.inputSize == |bytes|
    }

    constructor ()
      ensures Valid() && recordedCalls == [] && inputs == [] && passed == [] && destroyed == {}
    {
      recordedCalls, inputs, inputsCapacity, passed, destroyed := [], [], 0, [], {};
    }

    /** The copy constructor. The copy's store has its own buffers, with the capacity to record on; and a pointer
        to a buffer of the source's store becomes the pointer to its copy, others being left alone. */
    constructor Copy(other: CallRecorder)
      requires |other.inputs| <= other.inputsCapacity
      ensures |inputs| == |other.inputs| <= inputsCapacity && MAX_RECORDED_CALLS <= inputsCapacity
      ensures forall i :: 0 <= i < |inputs| ==> fresh(inputs[i]) && inputs[i][..] == other.inputs[i][..]
      ensures |recordedCalls| == |other.recordedCalls| && passed == other.passed
      ensures forall k :: 0 <= k < |recordedCalls| ==>
        recordedCalls[k] == Repointed(other.recordedCalls[k], other.inputs, inputs)
      ensures forall b :: b in destroyed ==> fresh(b)
      ensures other.Valid() ==> Valid()
    {
      recordedCalls, passed, destroyed := other.recordedCalls, other.passed, {};
      inputs, inputsCapacity := [], |other.inputs|;
      new;
      inputs := CopiesOf(other.inputs);
      Reserve(MAX_RECORDED_CALLS);
      RepointCalls(other.inputs);
    }

    /** The loops that match pointers by identity. */
    method RepointCalls(others: seq<array<byte>>)
      requires |inputs| == |others|
      modifies this`recordedCalls
      ensures |recordedCalls| == |old(recordedCalls)|
      ensures forall k :: 0 <= k < |recordedCalls| ==>
        recordedCalls[k] == Repointed(old(recordedCalls)[k], others, inputs)
    {
      var k := 0;
      while k < |recordedCalls|
        invariant 0 <= k <= |recordedCalls| == |old(recordedCalls)|
        invariant forall j :: 0 <= j < k ==> recordedCalls[j] == Repointed(old(recordedCalls)[j], others, inputs)
        invariant forall j :: k <= j < |recordedCalls| ==> recordedCalls[j] == old(recordedCalls)[j]
      {
        var msg := recordedCalls[k];
        if msg.inputData != null {
          var i := 0;
          while i < |others| && !(msg.inputData == others[i] && msg.inputOffset == 0)
            invariant 0 <= i <= |others|
            invariant forall j :: 0 <= j < i ==> !(msg.inputData == others[j] && msg.inputOffset == 0)
          {
            i := i + 1;
          }
          if i < |others| {
            FirstPosition(msg.inputData, others, i);
            recordedCalls := recordedCalls[k := msg.(inputData := inputs[i])];
          }
        }
        k := k + 1;
      }
    }

    /** What the user does to start over; the input copies stay until the next call. */
    method ClearRecordedCalls()
      requires Valid()
      modifies this`recordedCalls, this`passed
      ensures Valid() && recordedCalls == [] && passed == [] && inputs == old(inputs)
    {
      recordedCalls, passed := [], [];
    }

    /** Moves every buffer of the store, destroying the old ones. */
    method Reallocate(capacity: nat)
      requires |inputs| <= capacity
      modifies this`inputs, this`inputsCapacity, this`destroyed
      ensures inputsCapacity == capacity && |inputs| == |old(inputs)|
      ensures forall i :: 0 <= i < |inputs| ==> fresh(inputs[i]) && inputs[i][..] == old(inputs[i][..])
      ensures destroyed == old(destroyed) + set b <- old(inputs)
    {
      var moved := CopiesOf(inputs);
      destroyed := destroyed + set b <- inputs;
      inputs, inputsCapacity := moved, capacity;
    }

    /** Destroys every buffer of the store. */
    method ClearInputs()
      modifies this`inputs, this`destroyed
      ensures inputs == [] && destroyed == old(destroyed) + set b <- old(inputs)
    {
      destroyed := destroyed + set b <- inputs;
      inputs := [];
    }

    method Reserve(n: nat)
      requires |inputs| <= inputsCapacity
      modifies this`inputs, this`inputsCapacity, this`destroyed
      ensures |inputs| == |old(inputs)| && n <= inputsCapacity && old(inputsCapacity) <= inputsCapacity
      ensures old(inputsCapacity) >= n ==> inputs == old(inputs) && destroyed == old(destroyed)
      ensures old(destroyed) <= destroyed <= old(destroyed) + set b <- old(inputs)
      ensures forall i :: 0 <= i < |inputs| ==>
        (inputs[i] == old(inputs[i]) || fresh(inputs[i])) && inputs[i][..] == old(inputs[i][..])
      ensures old(forall i :: 0 <= i < |inputs| ==> inputs[i] !in destroyed) ==>
        forall i :: 0 <= i < |inputs| ==> inputs[i] !in destroyed
    {
      if n > inputsCapacity {
        Reallocate(n);
      }
    }

    /** Reads bytes of a buffer: they are known only while it is not destroyed. */
    method ReadInput(b: array<byte>, offset: nat, size: nat) returns (data: seq<byte>, ghost live: bool)
      requires offset + size <= b.Length
      ensures live <==> b !in destroyed
      ensures live ==> data == b[offset..offset + size]
    {
      live := b !in destroyed;
      data := b[offset..offset + size];
    }

    method EmplaceInput(data: seq<byte>)
      requires |inputs| <= inputsCapacity
      modifies this`inputs, this`inputsCapacity, this`destroyed
      ensures |inputs| == |old(inputs)| + 1 <= inputsCapacity
      ensures fresh(inputs[|inputs| - 1]) && inputs[|inputs| - 1][..] == data
      ensures destroyed <= old(destroyed) + set b <- old(inputs)
      ensures forall b :: b in inputs ==> b in old(inputs) || fresh(b)
      ensures old(|inputs| < inputsCapacity) ==>
        inputs[..|inputs| - 1] == old(inputs) && inputsCapacity == old(inputsCapacity) &&
        destroyed == old(destroyed)
    {
      if |inputs| == inputsCapacity {
        Reallocate(2 * inputsCapacity + 1);
      }
      var b := CopyOf(data);
      inputs := inputs + [b];
    }

    /** The message as it is recorded, pointing to its own copy of the input, which there is room for. */
    method KeepInput(msg: CallMessage) returns (callMsg: CallMessage, ghost live: bool)
      requires |inputs| < inputsCapacity && InBounds(msg)
      modifies this`inputs, this`inputsCapacity, this`destroyed
      ensures live <==> msg.inputData == null || msg.inputSize == 0 || msg.inputData !in old(destroyed)
      ensures live ==> Backed(callMsg, Passed(msg))
      ensures callMsg == msg.(inputData := callMsg.inputData, inputOffset := 0, inputSize := callMsg.inputSize)
      ensures callMsg.inputData == null || fresh(callMsg.inputData)
      ensures old(inputs) <= inputs && |inputs| <= |old(inputs)| + 1 && |inputs| <= inputsCapacity
      ensures forall i :: |old(inputs)| <= i < |inputs| ==> fresh(inputs[i])
      ensures inputsCapacity == old(inputsCapacity) && destroyed == old(destroyed)
    {
      callMsg, live := msg, true;
      if callMsg.inputData == null || callMsg.inputSize == 0 {
        callMsg := callMsg.(inputData := null, inputOffset := 0, inputSize := 0);
      } else {
        var data;
        data, live := ReadInput(callMsg.inputData, callMsg.inputOffset, callMsg.inputSize);
        EmplaceInput(data);
        assert old(inputs) == inputs[..|inputs| - 1];
        callMsg := callMsg.(inputData := inputs[|inputs| - 1], inputOffset := 0);
      }
    }

    /** The first call starts with an empty store, which has the capacity for all. */
    method StartRecording()
      requires Valid()
      modifies this`inputs, this`inputsCapacity, this`destroyed
      ensures Valid() && |inputs| <= |recordedCalls| && MAX_RECORDED_CALLS <= inputsCapacity
      ensures if recordedCalls == [] then inputs == [] && destroyed == old(destroyed) + set b <- old(inputs)
              else inputs == old(inputs) && destroyed == old(destroyed)
    {
      if recordedCalls == [] {
        ClearInputs();
        Reserve(MAX_RECORDED_CALLS);
      }
    }

    /** Records the message, which there is room for. */
    method AddCall(msg: CallMessage) returns (ghost live: bool)
      requires Valid() && |inputs| <= |recordedCalls| < MAX_RECORDED_CALLS <= inputsCapacity && InBounds(msg)
      modifies this
      ensures live <==> msg.inputData == null || msg.inputSize == 0 || msg.inputData !in old(destroyed)
      ensures live ==> Valid()
      ensures |recordedCalls| == |old(recordedCalls)| + 1
      ensures recordedCalls[..|old(recordedCalls)|] == old(recordedCalls)
      ensures passed == old(passed) + [Passed(msg)]
      ensures var r := recordedCalls[|old(recordedCalls)|];
        && r == msg.(inputData := r.inputData, inputOffset := 0, inputSize := r.inputSize)
        && (r.inputData == null || fresh(r.inputData))
      ensures old(inputs) <= inputs && destroyed == old(destroyed)
      ensures forall b :: b in inputs ==> b in old(inputs) || fresh(b)
    {
      ghost var bytes := Passed(msg);
      var callMsg;
      callMsg, live := KeepInput(msg);
      recordedCalls := recordedCalls + [callMsg];
      passed := passed + [bytes];
    }

    /** Records up to 100 calls. The first one clears the store before it reads its message's input, so what is read
        is live exactly unless that message points into the store being cleared. Each message whose input was read
        alive is recorded with the bytes it passed, in a buffer that no later call moves or changes, and no recorded
        message keeps a pointer into the caller's buffer. */
    method Call(msg: CallMessage) returns (ghost live: bool)
      requires Valid()
      requires InBounds(msg) && (msg.inputData != null && msg.inputSize != 0 ==> msg.inputData !in destroyed)
      modifies this
      ensures live <==>
        old(recordedCalls) != [] || msg.inputData == null || msg.inputSize == 0 || msg.inputData !in old(inputs)
      ensures live ==> Valid()
      ensures if |old(recordedCalls)| == 100
              then recordedCalls == old(recordedCalls) && passed == old(passed)
              else
                && |recordedCalls| == |old(recordedCalls)| + 1
                && recordedCalls[..|old(recordedCalls)|] == old(recordedCalls)
                && passed == old(passed) + [Passed(msg)]
                && var r := recordedCalls[|old(recordedCalls)|];
                && r == msg.(inputData := r.inputData, inputOffset := 0, inputSize := r.inputSize)
                && (r.inputData == null || fresh(r.inputData))
      ensures old(recordedCalls) != [] ==> old(inputs) <= inputs && destroyed == old(destroyed)
      ensures destroyed <= old(destroyed) + set b <- old(inputs)
      ensures forall b :: b in inputs ==> b in old(inputs) || fresh(b)
    {
      StartRecording();
      live := true;
      if |recordedCalls| < MAX_RECORDED_CALLS {
        live := AddCall(msg);
      }
    }
  }

  /** The promise fails for a user who clears the record and passes a recorded input on again, or any part of it: its
      buffer is destroyed before it is read. */
  method ReplayAfterClearing(msg: CallMessage, skipped: nat) returns (recorder: CallRecorder, ghost live: bool)
    requires InBounds(msg) && msg.inputData != null && skipped < msg.inputSize
    ensures fresh(recorder) && !live
  {
    recorder := new CallRecorder();
    var live1 := recorder.Call(msg);
    var saved := recorder.recordedCalls[0];
    assert recorder.Backed(saved, recorder.passed[0]) && saved.inputData in recorder.inputs;
    recorder.ClearRecordedCalls();
    live := recorder.Call(saved.(inputOffset := skipped, inputSize := saved.inputSize - skipped));
  }

  // ---------- sequences of actions ----------

  /** What a user does with a host: pass a message of its own; pass on what is recorded of the k-th call, if there is
      one; clear the record; or go on with a copy of the host. */
  datatype Action = Pass(msg: CallMessage) | PassOn(k: nat) | Clear | Copy

  predicate ActionInBounds(action: Action) {
    action.Pass? ==> InBounds(action.msg)
  }

  function Buffers(actions: seq<Action>): set<object> {
    set i | 0 <= i < |actions| && actions[i].Pass? && actions[i].msg.inputData != null :: actions[i].msg.inputData
  }

  /** The bytes of the recorded calls after one more action. */
  ghost function ExpectedNext(before: seq<seq<byte>>, action: Action): seq<seq<byte>>
    requires ActionInBounds(action)
    reads Buffers([action])
  {
    assert action == [action][0];
    match action
    case Pass(msg) => if |before| < 100 then before + [Passed(msg)] else before
    case PassOn(k) => if k < |before| < 100 then before + [before[k]] else before
    case Clear => []
    case Copy => before
  }

  /** The bytes of the recorded calls after the actions. */
  ghost function Expected(actions: seq<Action>): seq<seq<byte>>
    requires forall i :: 0 <= i < |actions| ==> ActionInBounds(actions[i])
    reads Buffers(actions)
  {
    if actions == [] then [] else
      assert actions[|actions| - 1] in actions;
      ExpectedNext(Expected(actions[..|actions| - 1]), actions[|actions| - 1])
  }

  lemma NothingExpected()
    ensures Expected([]) == []
  {
  }

  lemma OneMoreAction(actions: seq<Action>, i: nat)
    requires i < |actions| && forall j :: 0 <= j < |actions| ==> ActionInBounds(actions[j])
    ensures Expected(actions[..i + 1]) == ExpectedNext(Expected(actions[..i]), actions[i])
  {
    hide ExpectedNext;
    assert actions[..i + 1][..i] == actions[..i];
  }

  /** One action, in which any input is read alive. */
  method Act(recorder: CallRecorder, action: Action) returns (next: CallRecorder)
    requires recorder.Valid() && ActionInBounds(action)
    requires action.Pass? && action.msg.inputData != null ==>
      action.msg.inputData !in recorder.inputs && action.msg.inputData !in recorder.destroyed
    modifies recorder
    ensures next == recorder || fresh(next)
    ensures next.Valid() && next.passed == ExpectedNext(old(recorder.passed), action)
    ensures forall b :: b in next.inputs || b in next.destroyed ==>
      b in old(recorder.inputs) || b in old(recorder.destroyed) || fresh(b)
  {
    next := recorder;
    if action.Pass? {
      var live := recorder.Call(action.msg);
      assert live;
    } else if action.PassOn? {
      if action.k < |recorder.recordedCalls| {
        var recorded := recorder.recordedCalls[action.k];
        assert recorder.Backed(recorded, recorder.passed[action.k]);
        assert Passed(recorded) == recorder.passed[action.k];
        var live := recorder.Call(recorded);
        assert live;
      }
    } else if action.Clear? {
      recorder.ClearRecordedCalls();
    } else {
      next := new CallRecorder.Copy(recorder);
    }
  }

  /** Over any sequence of actions every input is read alive, every recorded message has a live buffer of the store
      with the bytes passed when it was recorded, and these are all the calls since the last clear, up to 100. */
  method RecordAll(actions: seq<Action>) returns (recorder: CallRecorder)
    requires forall i :: 0 <= i < |actions| ==> ActionInBounds(actions[i])
    ensures fresh(recorder) && recorder.Valid() && recorder.passed == Expected(actions)
  {
    hide Expected, ExpectedNext;
    recorder := new CallRecorder();
    NothingExpected();
    var i := 0;
    while i < |actions|
      invariant 0 <= i <= |actions|
      invariant fresh(recorder) && recorder.Valid() && recorder.passed == Expected(actions[..i])
      invariant forall b :: b in recorder.inputs || b in recorder.destroyed ==> fresh(b)
    {
      ghost var before := Expected(actions[..i]);
      assert forall b :: b in Buffers(actions[..i]) ==> !fresh(b);
      recorder := Act(recorder, actions[i]);
      assert Expected(actions[..i]) == before;
      OneMoreAction(actions, i);
      i := i + 1;
    }
    assert actions[..i] == actions;
  }

  method CopiesOf(buffers: seq<array<byte>>) returns (copies: seq<array<byte>>)
    ensures |copies| == |buffers|
    ensures forall i :: 0 <= i < |copies| ==> fresh(copies[i]) && copies[i][..] == buffers[i][..]
  {
    copies := [];
    while |copies| < |buffers|
      invariant |copies| <= |buffers|
      invariant forall i :: 0 <= i < |copies| ==> fresh(copies[i]) && copies[i][..] == buffers[i][..]
    {
      var b := CopyOf(buffers[|copies|][..]);
      copies := copies + [b];
    }
  }

  method CopyOf(data: seq<byte>) returns (b: array<byte>)
    ensures fresh(b) && b[..] == data
  {
    b := new byte[|data|];
    forall i | 0 <= i < |data| {
      b[i] := data[i];
    }
  }
}
