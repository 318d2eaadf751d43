/**
 The three push buttons of button.c, wired active-low to port 1 bits 3, 4 and
 5. The port interrupt latches the pressed buttons into `btn`; `get_button`
 reports one of them, by priority, and clears the latch.
 */
module Button {

  /** `BTN1`, `BTN2`, `BTN3`: `BIT3`, `BIT4`, `BIT5` of port 1. */
  const Btn1: bv8 := 0x08
  const Btn2: bv8 := 0x10
  const Btn3: bv8 := 0x20

  /** The button bits in priority order; button `k` is reported as code `k + 1`. */
  const Buttons: seq<bv8> := [Btn1, Btn2, Btn3]

  /** `BTN1 | BTN2 | BTN3` */
  const ButtonMask: bv8 := Btn1 | Btn2 | Btn3

  /** The result of `get_button`: the reported code and the latch afterwards. */
  datatype Press = Press(code: nat, latch: bv8)

  /**
   `get_button`: report 1, 2 or 3 for the highest-priority button set in the
   latch `btn` and clear the latch; report 0 and keep the latch when no button
   bit is set.
   */
  function GetButton(btn: bv8): (r: Press)
    ensures r.code <= 3
    // priority: button 1 before button 2 before button 3
    ensures r.code == 1 <==> btn & Btn1 != 0
    ensures r.code == 2 <==> btn & Btn1 == 0 && btn & Btn2 != 0
    ensures r.code == 3 <==> btn & Btn1 == 0 && btn & Btn2 == 0 && btn & Btn3 != 0
    // clear on success, keep otherwise (also when only unknown bits are set)
    ensures r.code != 0 ==> r.latch == 0
    ensures r.code == 0 ==> r.latch == btn && btn & ButtonMask == 0
  {
    if btn != 0 && btn & Btn1 != 0 then Press(1, 0)
    else if btn != 0 && btn & Btn2 != 0 then Press(2, 0)
    else if btn != 0 && btn & Btn3 != 0 then Press(3, 0)
    else Press(0, btn)
  }

  /**
   `Port_1`: the latch value for the port input `p1in`. The buttons pull their
   pins low, so a button bit is set exactly when its pin reads 0, and every
   other bit is clear.
   */
  function Latch(p1in: bv8): (btn: bv8)
    ensures btn & !ButtonMask == 0
    ensures forall k :: 0 <= k < |Buttons| ==> (btn & Buttons[k] != 0 <==> p1in & Buttons[k] == 0)
  {
    !p1in & ButtonMask
  }

  /** The reference decode: one more than the index of the first button set, or 0. */
  function FirstPressed(btn: bv8, k: nat): (code: nat)
    requires k <= |Buttons|
    ensures code == 0 || k < code <= |Buttons|
    ensures code != 0 ==> btn & Buttons[code - 1] != 0
    ensures code != 0 ==> forall j :: k <= j < code - 1 ==> btn & Buttons[j] == 0
    ensures code == 0 ==> forall j :: k <= j < |Buttons| ==> btn & Buttons[j] == 0
    decreases |Buttons| - k
  {
    if k == |Buttons| then 0
    else if btn & Buttons[k] != 0 then k + 1
    else FirstPressed(btn, k + 1)
  }

  /** `get_button` reports the first pressed button in priority order. */
  lemma GetButtonIsFirstPressed(btn: bv8)
    ensures GetButton(btn).code == FirstPressed(btn, 0)
  {
  }

  /** A successful `get_button` leaves nothing for an immediate second call. */
  lemma GetButtonTwice(btn: bv8)
    requires GetButton(btn).code != 0
    ensures GetButton(GetButton(btn).latch) == Press(0, 0)
  {
  }

  /** Bits outside the three buttons never produce a report and are kept. */
  lemma UnknownBitsIgnored(btn: bv8)
    requires btn != 0 && btn & ButtonMask == 0
    ensures GetButton(btn) == Press(0, btn)
  {
  }

  /**
   From the port pins to the report: the interrupt latch followed by
   `get_button` yields the first button whose pin reads low, or 0 when all
   three pins read high.
   */
  lemma PressedPinReported(p1in: bv8)
    ensures GetButton(Latch(p1in)).code == FirstPressed(!p1in, 0)
    ensures GetButton(Latch(p1in)).code == 0 <==> p1in & ButtonMask == ButtonMask
  {
    var btn := Latch(p1in);
    GetButtonIsFirstPressed(btn);
    assert FirstPressed(btn, 0) == FirstPressed(!p1in, 0);
  }
}
