/**
 The serial-port helpers of uart.c: hexadecimal digit conversion, and the
 16-slot circular transmit buffer that `uart_putc` fills and `uart_start_tx`
 drains into the transmit register.

 The hardware transmit register `UCA0TXBUF` is modelled by the `sent` field:
 every write to it appends one character. Each interrupt handler and each call
 is one atomic step; interrupt-enable bits and the TX LED are not modelled.
 */
module Uart {
  import opened MachineInts

  /** `UART_TX_BUFLEN` */
  const BufLen: nat := 16

  /** `UART_TX_BUFMASK`, one less than the power of two `UART_TX_BUFLEN` */
  const BufMask: nat := 0x0F

  /**
   `x & UART_TX_BUFMASK` on a 16-bit `unsigned int`: for a non-negative `x`
   and a mask of the form 2^k - 1, the bitwise and keeps the remainder modulo 2^k.
   */
  function Masked(x: uint16): (r: nat)
    ensures r < BufLen
  {
    x % (BufMask + 1)
  }

  /** `(p + 1) & UART_TX_BUFMASK`: the slot after `p` in the ring. */
  function NextIndex(p: nat): (q: nat)
    requires p < BufLen
    ensures q < BufLen && (p < BufLen - 1 ==> q == p + 1) && (p == BufLen - 1 ==> q == 0)
  {
    Masked(p + 1)
  }

  // ---------------------------------------------------------------------------
  // Hexadecimal digits

  /** The characters `h2c` can produce: '0'..'9' and 'A'..'F'. */
  predicate IsUpperHexDigit(c: char) {
    ('0' <= c <= '9') || ('A' <= c <= 'F')
  }

  /** The characters `c2h` accepts: '0'..'9', 'A'..'F' and 'a'..'f'. */
  predicate IsHexDigit(c: char) {
    IsUpperHexDigit(c) || ('a' <= c <= 'f')
  }

  /** The upper-case spelling of a hexadecimal digit. */
  function ToUpper(c: char): char {
    if 'a' <= c <= 'z' then (c as int - 'a' as int + 'A' as int) as char else c
  }

  /** The hexadecimal digits in value order: digit `k` spells the value `k`. */
  const HexDigits: seq<char> := "0123456789ABCDEF"

  /** `h & 0xF` on a 16-bit `unsigned int`: the low four bits, as a remainder. */
  function LowNibble(h: uint16): (r: nat)
    ensures r < 16
  {
    h % 16
  }

  /** `h2c`: the upper-case hexadecimal digit of the low nibble of `h`. */
  function HexToChar(h: uint16): (c: char)
    ensures IsUpperHexDigit(c)
    ensures c == HexDigits[LowNibble(h)]
  {
    var hx := LowNibble(h);
    if hx < 0xA then ('0' as int + hx) as char else ('A' as int + hx - 10) as char
  }

  /** `c2h`: the value 0..15 of a hexadecimal digit of either case, or -1. */
  function CharToHex(c: char): (v: int)
    ensures -1 <= v < 16
    ensures v == -1 <==> !IsHexDigit(c)
    ensures IsHexDigit(c) ==> HexDigits[v] == ToUpper(c)
  {
    if '0' <= c <= '9' then c as int - '0' as int
    else if 'A' <= c <= 'F' then c as int - 'A' as int + 10
    else if 'a' <= c <= 'f' then c as int - 'a' as int + 10
    else -1
  }

  /** `h2c` reads only the low nibble of its argument. */
  lemma HexToCharLowNibble(h: uint16)
    ensures HexToChar(h) == HexToChar(LowNibble(h))
  {
  }

  /** `c2h` undoes `h2c`: the round trip yields the low nibble. */
  lemma HexRoundTrip(h: uint16)
    ensures CharToHex(HexToChar(h)) == LowNibble(h)
  {
  }

  /** `h2c` undoes `c2h` up to letter case. */
  lemma CharRoundTrip(c: char)
    requires IsHexDigit(c)
    ensures HexToChar(CharToHex(c)) == ToUpper(c)
  {
  }

  /** `c2h` does not distinguish 'a'..'f' from 'A'..'F'. */
  lemma CharToHexCaseInsensitive(k: nat)
    requires k < 6
    ensures CharToHex(('a' as int + k) as char) == CharToHex(('A' as int + k) as char) == 10 + k
  {
  }

  // ---------------------------------------------------------------------------
  // Transmit ring buffer

  /**
   The transmit side of the port: `uart_tx_buffer`, `uart_tx_inptr` (slot of the
   last character put), `uart_tx_outptr` (slot of the last character sent),
   `uart_tx_transmitt`, and the characters written to `UCA0TXBUF` so far.
   */
  datatype Port = Port(buffer: seq<char>, inptr: uint16, outptr: uint16, transmitting: bool, sent: seq<char>)

  /** Sixteen slots and both indices inside them. */
  predicate Valid(u: Port) {
    |u.buffer| == BufLen && u.inptr < BufLen && u.outptr < BufLen
  }

  /** A port that is not transmitting has nothing queued. */
  predicate Quiescent(u: Port) {
    !u.transmitting ==> u.inptr == u.outptr
  }

  /** The power-on state: an all-NUL buffer, both indices 0, not transmitting. */
  const Init: Port := Port(seq(BufLen, _ => '\0'), 0, 0, false, [])

  /** The power-on port is valid, idle and has accepted nothing. */
  lemma InitIdle()
    ensures Valid(Init) && Quiescent(Init) && Count(Init) == 0 && Stream(Init) == []
  {
  }

  /**
   The number of characters queued, `(inptr - outptr) & UART_TX_BUFMASK`: the
   distance from `outptr` forward to `inptr` around the ring.
   */
  function Count(u: Port): (n: nat)
    requires Valid(u)
    ensures n < BufLen
    ensures n == 0 <==> u.inptr == u.outptr
  {
    if u.outptr <= u.inptr then u.inptr - u.outptr else u.inptr + BufLen - u.outptr
  }

  /** The ring slot of the `i`-th queued character, counting from the oldest. */
  function Slot(u: Port, i: nat): (p: nat)
    requires Valid(u) && i < BufLen
    ensures p < BufLen
  {
    var k := u.outptr + 1 + i;
    if k < BufLen then k else k - BufLen
  }

  /** The queued characters, oldest first. */
  function Pending(u: Port): (q: seq<char>)
    requires Valid(u)
    ensures |q| == Count(u)
  {
    seq(Count(u), i requires 0 <= i < Count(u) => u.buffer[Slot(u, i)])
  }

  /** Everything ever accepted, in order: what was sent, then what is queued. */
  function Stream(u: Port): seq<char>
    requires Valid(u)
  {
    u.sent + Pending(u)
  }

  /** The buffer is full when the slot after `inptr` is `outptr`. */
  predicate Full(u: Port): (full: bool)
    requires Valid(u)
    ensures full <==> Count(u) == BufLen - 1
  {
    NextIndex(u.inptr) == u.outptr
  }

  /** The result of a buffer operation: the new port and the C return value. */
  datatype Outcome = Outcome(port: Port, status: int)

  /**
   `uart_start_tx`: on an empty buffer clear the transmit flag and fail with -1;
   otherwise advance `outptr`, write the character in its slot to the
   transmit register, set the flag and return 0.
   */
  function StartTx(u: Port): (r: Outcome)
    requires Valid(u)
    ensures Valid(r.port) && Quiescent(r.port)
    ensures r.status == -1 || r.status == 0
    ensures r.status == -1 <==> u.inptr == u.outptr
    ensures r.status == -1 ==> r.port == u.(transmitting := false)
    ensures r.status == 0 ==>
              && r.port.transmitting
              && r.port.sent == u.sent + [u.buffer[NextIndex(u.outptr)]]
              && r.port.sent == u.sent + [Pending(u)[0]]
              && Pending(r.port) == Pending(u)[1..]
    ensures r.port.buffer == u.buffer && r.port.inptr == u.inptr
    ensures Stream(r.port) == Stream(u)
  {
    if u.inptr == u.outptr then
      Outcome(u.(transmitting := false), -1)
    else
      var p := NextIndex(u.outptr);
      var r := Outcome(u.(transmitting := true, sent := u.sent + [u.buffer[p]], outptr := p), 0);
      DequeueShifts(u, r.port);
      r
  }

  /** Advancing `outptr` past the oldest queued character drops it from the queue. */
  lemma DequeueShifts(u: Port, v: Port)
    requires Valid(u) && Valid(v) && u.inptr != u.outptr
    requires v.buffer == u.buffer && v.inptr == u.inptr && v.outptr == NextIndex(u.outptr)
    ensures Count(v) == Count(u) - 1
    ensures Pending(u)[0] == u.buffer[NextIndex(u.outptr)]
    ensures Pending(v) == Pending(u)[1..]
  {
    var a := Pending(u);
    var b := Pending(v);
    assert |b| == |a[1..]|;
    forall i | 0 <= i < |b|
      ensures b[i] == a[1..][i]
    {
      assert Slot(v, i) == Slot(u, i + 1);
    }
  }

  /** Storing a character in the slot after `inptr` appends it to the queue. */
  lemma EnqueueAppends(u: Port, v: Port, c: char)
    requires Valid(u) && Valid(v) && !Full(u)
    requires v.buffer == u.buffer[NextIndex(u.inptr) := c]
    requires v.inptr == NextIndex(u.inptr) && v.outptr == u.outptr
    ensures Count(v) == Count(u) + 1
    ensures Pending(v) == Pending(u) + [c]
  {
    var a := Pending(u) + [c];
    var b := Pending(v);
    assert |b| == |a|;
    forall i | 0 <= i < |b|
      ensures b[i] == a[i]
    {
      if i < Count(u) {
        assert Slot(v, i) != NextIndex(u.inptr);
      } else {
        assert Slot(v, i) == NextIndex(u.inptr);
      }
    }
  }

  /**
   `uart_putc`: on a full buffer fail with -1 and change nothing; otherwise
   store `c` in the slot after `inptr`, advance `inptr`, and start
   transmitting if the port was idle.
   */
  function PutChar(u: Port, c: char): (r: Outcome)
    requires Valid(u)
    ensures Valid(r.port)
    ensures r.status == -1 || r.status == 0
    ensures r.status == -1 <==> Full(u)
    ensures r.status == -1 ==> r.port == u
    ensures r.status == 0 ==> r.port.transmitting && Stream(r.port) == Stream(u) + [c]
    ensures r.status == 0 && u.transmitting ==>
              r.port.sent == u.sent && Pending(r.port) == Pending(u) + [c] && Count(r.port) == Count(u) + 1
    ensures r.status == 0 && !u.transmitting && Quiescent(u) ==>
              r.port.sent == u.sent + [c] && Pending(r.port) == []
    ensures r.status == 0 ==> Count(r.port) <= Count(u) + 1
    ensures Quiescent(u) ==> Quiescent(r.port)
  {
    var p := NextIndex(u.inptr);
    if p == u.outptr then
      Outcome(u, -1)
    else
      var v := u.(buffer := u.buffer[p := c], inptr := p);
      EnqueueAppends(u, v, c);
      if !u.transmitting then StartTx(v) else Outcome(v, 0)
  }

  /** The transmit-ready interrupt firing `n` times; each firing calls `uart_start_tx`. */
  function TxInterrupts(u: Port, n: nat): (r: Port)
    requires Valid(u)
    ensures Valid(r)
    ensures Stream(r) == Stream(u)
    decreases n
  {
    if n == 0 then u else TxInterrupts(StartTx(u).port, n - 1)
  }

  /**
   FIFO order: as many transmit interrupts as there are queued characters send
   exactly those characters, oldest first, and leave the buffer empty.
   */
  lemma {:induction false} DrainSendsInOrder(u: Port)
    requires Valid(u)
    ensures Count(TxInterrupts(u, Count(u))) == 0
    ensures TxInterrupts(u, Count(u)).sent == u.sent + Pending(u)
    decreases Count(u)
  {
    if Count(u) > 0 {
      var v := StartTx(u).port;
      assert Count(v) == Count(u) - 1;
      DrainSendsInOrder(v);
      assert TxInterrupts(u, Count(u)) == TxInterrupts(v, Count(v));
    }
  }

  /** The length of a C string held in `s`: up to the first NUL, or all of `s`. */
  function CStringLength(s: seq<char>): (n: nat)
    ensures n <= |s|
    ensures forall i :: 0 <= i < n ==> s[i] != '\0'
    ensures n < |s| ==> s[n] == '\0'
  {
    if |s| == 0 || s[0] == '\0' then 0 else 1 + CStringLength(s[1..])
  }

  /**
   `uart_puts`: put the characters of the C string `s` one by one, stopping
   after the first one the buffer rejects; return how many were tried,
   counting the rejected one.
   */
  method PutString(u: Port, s: seq<char>) returns (r: Port, n: nat)
    requires Valid(u)
    ensures Valid(r)
    ensures Quiescent(u) ==> Quiescent(r)
    ensures n <= CStringLength(s)
    // either all `n` were accepted, or the `n`-th found the buffer full
    ensures Stream(r) == Stream(u) + s[..n] || (0 < n && Full(r) && Stream(r) == Stream(u) + s[..n - 1])
    // stopping before the terminator means a character was rejected
    ensures n < CStringLength(s) ==> 0 < n && Full(r) && Stream(r) == Stream(u) + s[..n - 1]
    // room for the whole string means it is all accepted
    ensures Count(u) + CStringLength(s) < BufLen ==>
              n == CStringLength(s) && Stream(r) == Stream(u) + s[..n]
    // a transmitting port only queues: nothing is sent, and a string longer
    // than the free room stops at the first character that finds it full
    ensures u.transmitting ==> r.transmitting && r.sent == u.sent
    ensures u.transmitting && BufLen - Count(u) <= CStringLength(s) ==>
              n == BufLen - Count(u) && Full(r)
    // an idle port sends the first character at once
    ensures !u.transmitting && Quiescent(u) && 0 < n ==> r.transmitting && r.sent == u.sent + [s[0]]
  {
    var len := CStringLength(s);
    r := u;
    n := 0;
    while n < |s| && s[n] != '\0'
      invariant n <= len
      invariant Valid(r)
      invariant Quiescent(u) ==> Quiescent(r)
      invariant Stream(r) == Stream(u) + s[..n]
      invariant Count(r) <= Count(u) + n
      invariant u.transmitting ==> r.transmitting && r.sent == u.sent && Count(r) == Count(u) + n
      invariant !u.transmitting && Quiescent(u) && 0 < n ==> r.transmitting && r.sent == u.sent + [s[0]]
      invariant n == 0 ==> r == u
    {
      var o := PutChar(r, s[n]);
      n := n + 1;
      if o.status != 0 {
        assert Stream(r) == Stream(u) + s[..n - 1];
        assert Full(r) && Count(r) == BufLen - 1;
        return;
      }
      assert s[..n] == s[..n - 1] + [s[n - 1]];
      r := o.port;
    }
  }
}
