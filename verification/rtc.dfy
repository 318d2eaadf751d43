/**
 The software real-time clock of rtc.c: a time-of-week value kept in a two-slot
 buffer, advanced by one second every `SamplingFreqv` ticks of timer A0, and
 resynchronised when a new time is set.

 The timer interrupt becomes the pure step `Tick`; the LED macros and the
 low-power-mode exit it also performs are not modelled.
 */
module Rtc {
  import opened MachineInts

  /** `RTC_SAMPLING_FREQV`: timer ticks per second (rtc.h). */
  const SamplingFreqv: nat := 512

  /** Seconds in a week (7 * 24 * 60 * 60), the period of the (second, minute, hour, day) counter. */
  const SecondsPerWeek: nat := 604800

  /** `tstruct`: one time-of-week value; each field is a `uint8_t`. */
  datatype Time = Time(second: uint8, minute: uint8, hour: uint8, dayow: uint8)

  /** The documented field ranges: second and minute 0..59, hour 0..23, day of week 0..6. */
  predicate InRange(t: Time) {
    t.second < 60 && t.minute < 60 && t.hour < 24 && t.dayow < 7
  }

  /** Seconds elapsed since the start of the week (day 0, 00:00:00). */
  function WeekSeconds(t: Time): nat {
    ((t.dayow * 24 + t.hour) * 60 + t.minute) * 60 + t.second
  }

  /** The in-range time that is `n` seconds into the week. */
  function TimeOf(n: nat): (t: Time)
    requires n < SecondsPerWeek
    ensures InRange(t)
  {
    Time(n % 60, (n / 60) % 60, (n / 60 / 60) % 24, n / 60 / 60 / 24)
  }

  /**
   `inc_one_second`: the time one second after `before`, carried from the
   second into the minute, hour and day of week. Every field is an 8-bit
   counter, so an out-of-range 255 wraps to 0 without carrying.
   */
  function IncOneSecond(before: Time): (after: Time)
    // no carry: only the second moves
    ensures before.second + 1 < 60 ==> after == before.(second := before.second + 1)
    // a field changes only when the field below it wrapped to zero
    ensures after.minute != before.minute ==> after.second == 0
    ensures after.hour != before.hour ==> after.second == 0 && after.minute == 0
    ensures after.dayow != before.dayow ==> after.second == 0 && after.minute == 0 && after.hour == 0
    // the carry chain at the top of each range
    ensures before.second == 59 && before.minute + 1 < 60 ==>
              after == before.(second := 0, minute := before.minute + 1)
    ensures before.second == 59 && before.minute == 59 && before.hour + 1 < 24 ==>
              after == before.(second := 0, minute := 0, hour := before.hour + 1)
    ensures before.second == 59 && before.minute == 59 && before.hour == 23 && before.dayow < 6 ==>
              after == Time(0, 0, 0, before.dayow + 1)
    ensures before.second == 59 && before.minute == 59 && before.hour == 23 && before.dayow >= 6 ==>
              after == Time(0, 0, 0, 0)
    // 8-bit wrap of an out-of-range second
    ensures before.second == 0xFF ==> after == before.(second := 0)
  {
    var s := Inc8(before.second);
    if s < 60 then before.(second := s)
    else
      var m := Inc8(before.minute);
      if m < 60 then before.(second := 0, minute := m)
      else
        var h := Inc8(before.hour);
        if h < 24 then before.(second := 0, minute := 0, hour := h)
        else
          var d := Inc8(before.dayow);
          Time(0, 0, 0, if d < 7 then d else 0)
  }

  /** An in-range time lies inside the week. */
  lemma WeekSecondsBound(t: Time)
    requires InRange(t)
    ensures WeekSeconds(t) < SecondsPerWeek
  {
  }

  /**
   For an in-range time, `inc_one_second` stays in range and advances the
   week-seconds counter by one, wrapping at the end of the week.
   */
  lemma {:induction false} IncOneSecondWeekCounter(t: Time)
    requires InRange(t)
    ensures InRange(IncOneSecond(t))
    ensures WeekSeconds(IncOneSecond(t)) == (WeekSeconds(t) + 1) % SecondsPerWeek
  {
    var r := IncOneSecond(t);
    if t == Time(59, 59, 23, 6) {
      assert WeekSeconds(t) == 604799;
      assert (WeekSeconds(t) + 1) % SecondsPerWeek == 0;
      assert r == Time(0, 0, 0, 0);
    } else {
      IncOneSecondNoWrap(t);
      WeekSecondsBound(r);
      SmallMod(WeekSeconds(r), SecondsPerWeek);
    }
  }

  /** Before the last second of the week, the successor is one week-second later. */
  lemma IncOneSecondNoWrap(t: Time)
    requires InRange(t) && t != Time(59, 59, 23, 6)
    ensures InRange(IncOneSecond(t))
    ensures WeekSeconds(IncOneSecond(t)) == WeekSeconds(t) + 1
  {
    var r := IncOneSecond(t);
    if t.second < 59 {
      assert r == t.(second := t.second + 1);
    } else if t.minute < 59 {
      assert r == t.(second := 0, minute := t.minute + 1);
    } else if t.hour < 23 {
      assert r == t.(second := 0, minute := 0, hour := t.hour + 1);
    } else {
      assert r == Time(0, 0, 0, t.dayow + 1);
    }
  }

  /** A value below the modulus is its own remainder. */
  lemma SmallMod(x: nat, k: nat)
    requires x < k
    ensures x % k == x
  {
  }

  /** Splitting `q * 60 + r` by 60 gives back `q` and `r`. */
  lemma Split60(q: nat, r: nat)
    requires r < 60
    ensures (q * 60 + r) / 60 == q && (q * 60 + r) % 60 == r
  {
  }

  /** Splitting `q * 24 + r` by 24 gives back `q` and `r`. */
  lemma Split24(q: nat, r: nat)
    requires r < 24
    ensures (q * 24 + r) / 24 == q && (q * 24 + r) % 24 == r
  {
  }

  /** `TimeOf` inverts `WeekSeconds` on in-range times. */
  lemma {:induction false} TimeOfWeekSeconds(t: Time)
    requires InRange(t)
    ensures WeekSeconds(t) < SecondsPerWeek
    ensures TimeOf(WeekSeconds(t)) == t
  {
    WeekSecondsBound(t);
    var hours := t.dayow * 24 + t.hour;
    var mins := hours * 60 + t.minute;
    var n := mins * 60 + t.second;
    assert n == WeekSeconds(t);
    Split60(mins, t.second);
    Split60(hours, t.minute);
    Split24(t.dayow, t.hour);
  }

  /**
   For an in-range time, `inc_one_second` is the successor in the week: the
   time whose week-seconds value is one more, modulo a week.
   */
  lemma IncOneSecondIsWeekSuccessor(t: Time)
    requires InRange(t)
    ensures IncOneSecond(t) == TimeOf((WeekSeconds(t) + 1) % SecondsPerWeek)
  {
    IncOneSecondWeekCounter(t);
    TimeOfWeekSeconds(IncOneSecond(t));
  }

  /**
   The module state: the two-slot time buffer `tbuff`, the index `tptr` of the
   valid slot, the resynchronisation flag `treset`, and the static tick divider
   `tdiv` of the timer interrupt.
   */
  datatype Clock = Clock(tbuff: seq<Time>, tptr: uint8, treset: bool, tdiv: uint16)

  /** What indexing `tbuff[tptr]` needs: two slots and a valid index. */
  predicate WellFormed(c: Clock) {
    |c.tbuff| == 2 && c.tptr < 2
  }

  /** The reachable-state invariant: well formed, divider below one second. */
  predicate Valid(c: Clock) {
    WellFormed(c) && c.tdiv < SamplingFreqv
  }

  /** The power-on state: zero-initialised buffer, slot 0, resync pending. */
  const Init: Clock := Clock([Time(0, 0, 0, 0), Time(0, 0, 0, 0)], 0, true, 0)

  /** `tptr ^ 0x01`: the index of the other slot. */
  function OtherSlot(p: uint8): (q: uint8)
    requires p < 2
    ensures q < 2 && q != p
  {
    ((p as bv8) ^ 1) as int
  }

  /** `rtc_get_time`: the time in the valid slot. */
  function GetTime(c: Clock): (t: Time)
    requires WellFormed(c)
    ensures t in c.tbuff
    ensures c.tbuff[0] != c.tbuff[1] ==> (t == c.tbuff[0] <==> c.tptr == 0)
  {
    c.tbuff[c.tptr]
  }

  /**
   `rtc_set_time`: store `t` in the valid slot and request a divider resync on
   the next tick.
   */
  function SetTime(c: Clock, t: Time): (r: Clock)
    requires WellFormed(c)
    ensures WellFormed(r) && (Valid(c) ==> Valid(r))
    ensures GetTime(r) == t
    ensures r.treset
    ensures r.tptr == c.tptr && r.tdiv == c.tdiv
    ensures r.tbuff[OtherSlot(c.tptr)] == c.tbuff[OtherSlot(c.tptr)]
  {
    c.(treset := true, tbuff := c.tbuff[c.tptr := t])
  }

  /**
   Writing back the time just read changes no slot: the only effect of
   `rtc_set_time(rtc_get_time())` is the requested resync.
   */
  lemma SetCurrentTime(c: Clock)
    requires WellFormed(c)
    ensures SetTime(c, GetTime(c)) == c.(treset := true)
  {
  }

  /**
   `Timer_A`: one timer tick. A pending resync zeroes the divider and clears
   the flag; otherwise the divider counts, and when it reaches
   `SamplingFreqv` it restarts and the successor of the valid time is written
   into the other slot, which becomes the valid one.
   */
  function Tick(c: Clock): (r: Clock)
    requires WellFormed(c)
    ensures Valid(r)
    ensures !r.treset
    // resync tick
    ensures c.treset ==> r == c.(treset := false, tdiv := 0)
    // counting tick
    ensures !c.treset && c.tdiv + 1 < SamplingFreqv ==> r == c.(tdiv := c.tdiv + 1)
    // second tick: successor in the other slot, valid slot toggles, old slot kept
    ensures !c.treset && c.tdiv + 1 == SamplingFreqv ==>
              && r.tdiv == 0
              && r.tptr == OtherSlot(c.tptr)
              && GetTime(r) == IncOneSecond(GetTime(c))
              && r.tbuff[c.tptr] == c.tbuff[c.tptr]
  {
    if !c.treset then
      var d := Inc16(c.tdiv);
      if d >= SamplingFreqv then
        var next := OtherSlot(c.tptr);
        c.(tdiv := 0, tbuff := c.tbuff[next := IncOneSecond(c.tbuff[c.tptr])], tptr := next)
      else
        c.(tdiv := d)
    else
      c.(tdiv := 0, treset := false)
  }

  /** `n` timer ticks in a row. */
  function Ticks(c: Clock, n: nat): (r: Clock)
    requires WellFormed(c)
    ensures WellFormed(r)
    ensures 0 < n ==> Valid(r) && !r.treset
    decreases n
  {
    if n == 0 then c else Ticks(Tick(c), n - 1)
  }

  /** `Init` satisfies the state invariant. */
  lemma InitValid()
    ensures Valid(Init) && Init.treset && GetTime(Init) == Time(0, 0, 0, 0)
  {
  }

  /** Fewer than a full second of counting ticks only advance the divider. */
  lemma {:induction false} CountingTicks(c: Clock, k: nat)
    requires WellFormed(c) && !c.treset && c.tdiv + k < SamplingFreqv
    ensures Ticks(c, k) == c.(tdiv := c.tdiv + k)
    decreases k
  {
    if k > 0 {
      var c' := Tick(c);
      assert c' == c.(tdiv := c.tdiv + 1);
      CountingTicks(c', k - 1);
    }
  }

  /**
   From a freshly restarted divider, the time stays put for 511 ticks and
   advances by exactly one second on the 512th, which restarts the divider.
   */
  lemma {:induction false} OneSecondPerSamplingPeriod(c: Clock)
    requires WellFormed(c) && !c.treset && c.tdiv == 0
    ensures forall k :: 0 <= k < SamplingFreqv ==> GetTime(Ticks(c, k)) == GetTime(c)
    ensures Ticks(c, SamplingFreqv).tdiv == 0
    ensures !Ticks(c, SamplingFreqv).treset
    ensures GetTime(Ticks(c, SamplingFreqv)) == IncOneSecond(GetTime(c))
  {
    forall k | 0 <= k < SamplingFreqv
      ensures GetTime(Ticks(c, k)) == GetTime(c)
    {
      CountingTicks(c, k);
    }
    var before := Ticks(c, SamplingFreqv - 1);
    CountingTicks(c, SamplingFreqv - 1);
    TicksSplit(c, SamplingFreqv - 1, 1);
    assert Ticks(c, SamplingFreqv) == Ticks(before, 1);
    assert Ticks(before, 1) == Tick(before);
  }

  /** Ticking `a` then `b` times is ticking `a + b` times. */
  lemma {:induction false} TicksSplit(c: Clock, a: nat, b: nat)
    requires WellFormed(c)
    ensures Ticks(c, a + b) == Ticks(Ticks(c, a), b)
    decreases a
  {
    if a > 0 {
      TicksSplit(Tick(c), a - 1, b);
    }
  }

  /**
   After `rtc_set_time(t)`, the next tick resynchronises and the time then
   reads `t` for a full second before becoming `t` plus one second.
   */
  lemma {:induction false} SetThenOneSecond(c: Clock, t: Time)
    requires WellFormed(c)
    ensures GetTime(Tick(SetTime(c, t))) == t
    ensures forall k :: 1 <= k <= SamplingFreqv ==> GetTime(Ticks(SetTime(c, t), k)) == t
    ensures GetTime(Ticks(SetTime(c, t), 1 + SamplingFreqv)) == IncOneSecond(t)
  {
    var s := SetTime(c, t);
    var r := Tick(s);
    assert r == s.(treset := false, tdiv := 0);
    forall k | 1 <= k <= SamplingFreqv
      ensures GetTime(Ticks(s, k)) == t
    {
      TicksSplit(s, 1, k - 1);
      assert Ticks(s, 1) == r;
      CountingTicks(r, k - 1);
    }
    TicksSplit(s, 1, SamplingFreqv);
    assert Ticks(s, 1) == r;
    OneSecondPerSamplingPeriod(r);
  }
}
