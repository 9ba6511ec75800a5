/** The opcodes and the stack columns of the instruction metrics table (instructions.h,
    instruction_metrics.c). */
module Instructions {
  import opened Bits

  const OP_STOP: byte := 0x00
  const OP_ADD: byte := 0x01
  const OP_ADDRESS: byte := 0x30
  const OP_CALLDATALOAD: byte := 0x35
  const OP_NUMBER: byte := 0x43
  const OP_MSTORE: byte := 0x52
  const OP_SLOAD: byte := 0x54
  const OP_SSTORE: byte := 0x55
  const OP_MSIZE: byte := 0x59
  const OP_PUSH1: byte := 0x60
  const OP_PUSH64: byte := 0x9f
  const OP_DUP1: byte := 0xa0
  const OP_CALL: byte := 0xf1
  const OP_RETURN: byte := 0xf3
  const OP_REVERT: byte := 0xfd

  datatype Metrics = Undefined | Metrics(required: nat, change: int)

  function MetricsOf(op: byte): Metrics {
    if op == 0x00 then Metrics(0, 0)
    else if 0x01 <= op <= 0x07 then Metrics(2, -1)
    else if 0x08 <= op <= 0x09 then Metrics(3, -2)
    else if 0x0a <= op <= 0x0b then Metrics(2, -1)
    else if 0x10 <= op <= 0x14 then Metrics(2, -1)
    else if op == 0x15 then Metrics(1, 0)
    else if 0x16 <= op <= 0x18 then Metrics(2, -1)
    else if op == 0x19 then Metrics(1, 0)
    else if 0x1a <= op <= 0x1d then Metrics(2, -1)
    else if op == 0x20 then Metrics(2, -1)
    else if op == 0x30 then Metrics(0, 1)
    else if op == 0x31 then Metrics(1, 0)
    else if 0x32 <= op <= 0x34 then Metrics(0, 1)
    else if op == 0x35 then Metrics(1, 0)
    else if op == 0x36 then Metrics(0, 1)
    else if op == 0x37 then Metrics(3, -3)
    else if op == 0x38 then Metrics(0, 1)
    else if op == 0x39 then Metrics(3, -3)
    else if op == 0x3a then Metrics(0, 1)
    else if op == 0x3b then Metrics(1, 0)
    else if op == 0x3c then Metrics(4, -4)
    else if op == 0x3d then Metrics(0, 1)
    else if op == 0x3e then Metrics(3, -3)
    else if 0x3f <= op <= 0x40 then Metrics(1, 0)
    else if 0x41 <= op <= 0x48 then Metrics(0, 1)
    else if op == 0x50 then Metrics(1, -1)
    else if op == 0x51 then Metrics(1, 0)
    else if 0x52 <= op <= 0x53 then Metrics(2, -2)
    else if op == 0x54 then Metrics(1, 0)
    else if op == 0x55 then Metrics(2, -2)
    else if op == 0x56 then Metrics(1, -1)
    else if op == 0x57 then Metrics(2, -2)
    else if 0x58 <= op <= 0x5a then Metrics(0, 1)
    else if op == 0x5b then Metrics(0, 0)
    else if 0x5f <= op <= 0x9f then Metrics(0, 1)
    else if 0xa0 <= op <= 0xaf then Metrics(op as int - 0xa0 + 1, 1)
    else if 0xb0 <= op <= 0xbf then Metrics(op as int - 0xb0 + 2, 0)
    else if 0xc0 <= op <= 0xc4 then Metrics(op as int - 0xc0 + 2, -(op as int - 0xc0 + 2))
    else if op == 0xf0 then Metrics(3, -2)
    else if op == 0xf1 then Metrics(7, -6)
    else if op == 0xf3 then Metrics(2, -2)
    else if op == 0xf4 then Metrics(6, -5)
    else if op == 0xf5 then Metrics(4, -3)
    else if op == 0xfa then Metrics(6, -5)
    else if op == 0xfd then Metrics(2, -2)
    else if op == 0xfe then Metrics(0, 0)
    else Undefined
  }

  /** The number of immediate bytes following the opcode. */
  function Immediates(op: byte): nat {
    if OP_PUSH1 <= op <= OP_PUSH64 then op as int - OP_PUSH1 as int + 1 else 0
  }
}
