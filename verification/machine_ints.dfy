/**
 The fixed-width unsigned integers of the MSP430 C code (`uint8_t`, and the
 16-bit `uint16_t` / `unsigned int`), as bounded mathematical integers, with
 the increment that wraps the way a C `x++` on such a variable does.
 */
module MachineInts {

  /** `uint8_t` */
  type uint8 = x: int | 0 <= x < 0x100

  /** `uint16_t`, and `unsigned int` on the MSP430 (a 16-bit target) */
  type uint16 = x: int | 0 <= x < 0x1_0000

  /** `x++` on a `uint8_t`: 255 wraps to 0. */
  function Inc8(x: uint8): (r: uint8)
    ensures x < 0xFF ==> r == x + 1
    ensures x == 0xFF ==> r == 0
  {
    (x + 1) % 0x100
  }

  /** `x++` on a 16-bit unsigned variable: 65535 wraps to 0. */
  function Inc16(x: uint16): (r: uint16)
    ensures x < 0xFFFF ==> r == x + 1
    ensures x == 0xFFFF ==> r == 0
  {
    (x + 1) % 0x1_0000
  }
}
