/**
 * The processor state captured when a debug event interrupts the program.
 */
module Registers {
  import opened Bytes

  const GPRS := 13
  const VFPS := 32

  datatype DebugEventContext = DebugEventContext(
    cpsr: u32,
    sp: u32,
    lr: u32,
    fpscr: u32,
    vfp: seq<u64>,
    gpr: seq<u32>,
    pc: u32)
  {
    /** The register arrays have their fixed lengths. */
    predicate Shape() {
      |vfp| == VFPS && |gpr| == GPRS
    }

    predicate Thumb() {
      cpsr / 0x20 % 2 == 1
    }
  }

  const RESET_CONTEXT :=
    DebugEventContext(0, 0, 0, 0, seq(VFPS, _ => 0), seq(GPRS, _ => 0), 0)
}
