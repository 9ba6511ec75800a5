/** Status codes, execution results and qrvmc_make_result (helpers.h). */
module Results {
  import opened Bits

  datatype Option<+T> = None | Some(value: T)

  datatype Status =
    | Success | Failure | Revert | OutOfGas | UndefinedInstruction
    | StackOverflow | StackUnderflow | CallDepthExceeded | StaticModeViolation
    | OutOfMemory | OtherStatus(code: int)

  /** `release` says whether the result carries a release function, that is, owns its output. */
  datatype Result = Result(status: Status, gasLeft: int64, gasRefund: int64, output: seq<byte>, release: bool)

  /** The result of a failed execution: every field but the status is zero. */
  function Failed(status: Status): Result {
    Result(status, 0, 0, [], false)
  }

  /** What qrvmc_make_result returns, `data` being None for a null pointer
      and `granted` the outcome of malloc. */
  function Made(status: Status, gasLeft: int64, gasRefund: int64,
                data: Option<seq<byte>>, size: nat, granted: bool): Result
    requires data.Some? ==> |data.value| == size
  {
    if size == 0 then Result(status, gasLeft, gasRefund, [], false)
    else if data.None? then Failed(Failure)
    else if !granted then Failed(OutOfMemory)
    else Result(status, gasLeft, gasRefund, data.value, true)
  }

  method MakeResult(status: Status, gasLeft: int64, gasRefund: int64,
                    data: array?<byte>, offset: nat, size: nat, granted: bool)
    returns (r: Result)
    requires data != null ==> offset + size <= data.Length
    ensures r == Made(status, gasLeft, gasRefund,
                      if data == null then None else Some(data[offset..offset + size]), size, granted)
    ensures size != 0 && data == null ==> r == Result(Failure, 0, 0, [], false)
    ensures size != 0 && data != null && !granted ==> r == Result(OutOfMemory, 0, 0, [], false)
    ensures size != 0 && data != null && granted ==>
      r == Result(status, gasLeft, gasRefund, data[offset..offset + size], true)
    ensures size == 0 ==> r == Result(status, gasLeft, gasRefund, [], false)
  {
    r := Failed(Success);
    if size != 0 {
      if data == null {
        r := r.(status := Failure);
        return;
      }
      if !granted {
        r := r.(status := OutOfMemory);
        return;
      }
      var buffer := new byte[size];
      var i := 0;
      while i < size
        invariant 0 <= i <= size
        invariant buffer[..i] == data[offset..offset + i]
      {
        buffer[i] := data[offset + i];
        i := i + 1;
      }
      r := r.(output := buffer[..], release := true);
    }
    r := r.(status := status, gasLeft := gasLeft, gasRefund := gasRefund);
  }
}
