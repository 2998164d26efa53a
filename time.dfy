/** The program's time values: integers read as HHMM (1345 is 1:45 PM),
    and the two digit-string tests it uses to carry minutes into hours
    (main.py:95-96 and truck.py:82-83). */
module Times {
  import opened Util

  /** The last two characters of str(t), or all of it when shorter. */
  function LastTwo(t: nat): string
  {
    var s := IntToString(t);
    if |s| >= 2 then s[|s| - 2..] else s
  }

  lemma {:induction false} LastTwoDigits(t: nat)
    ensures LastTwo(t) == if t < 10 then [DigitChar(t)] else [DigitChar((t / 10) % 10), DigitChar(t % 10)]
  {
    if t >= 10 {
      var s := NatToString(t);
      var h := NatToString(t / 10);
      assert s == h + [DigitChar(t % 10)];
      if t / 10 < 10 {
        assert h == [DigitChar(t / 10)];
        assert (t / 10) % 10 == t / 10;
      } else {
        assert h == NatToString(t / 10 / 10) + [DigitChar((t / 10) % 10)];
      }
      assert s[|s| - 2..] == [h[|h| - 1], DigitChar(t % 10)];
    }
  }

  /** The last two characters of str(t) read as Python's int() reads them,
      and compared with '60', are the minute field t % 100. */
  lemma LastTwoFacts(t: nat)
    ensures ParseInt(LastTwo(t)) == Some(t % 100)
    ensures LastTwo(t) == "60" <==> t % 100 == 60
  {
    LastTwoDigits(t);
    var s := LastTwo(t);
    NoSpaceInDigits(s);
    if t >= 10 {
      TwoDigitFacts((t / 10) % 10, t % 10);
      TensAndUnits(t);
    } else {
      assert DigitsValue(s) == t;
    }
  }

  /** A two-digit string reads as its value and spells '60' only for 6
      and 0. */
  lemma TwoDigitFacts(a: nat, b: nat)
    requires a < 10 && b < 10
    ensures AllDigits([DigitChar(a), DigitChar(b)])
    ensures DigitsValue([DigitChar(a), DigitChar(b)]) == a * 10 + b
    ensures [DigitChar(a), DigitChar(b)] == "60" <==> a == 6 && b == 0
  {
    var d1, d2 := DigitChar(a), DigitChar(b);
    DigitsValueAppendTwo([], d1, d2);
    assert [] + [d1, d2] == [d1, d2];
    assert "60"[0] == '6' && "60"[1] == '0';
  }

  /** The tens and units digits of t make up t % 100. */
  lemma TensAndUnits(t: nat)
    ensures ((t / 10) % 10) * 10 + t % 10 == t % 100
  {
    var q := t / 100;
    var r := t % 100;
    assert t == 100 * q + r;
    assert t / 10 == 10 * q + r / 10;
    assert (t / 10) % 10 == r / 10;
    assert t % 10 == r % 10;
  }

  /** Clock.tick's test `str(t)[-2:] == '60'`, which for a non-negative
      time is the arithmetic test on t % 100. */
  predicate EndsIn60(t: nat)
    ensures EndsIn60(t) <==> LastTwo(t) == "60"
  {
    LastTwoFacts(t);
    t % 100 == 60
  }

  /** Truck.calc_arrival_time's `int(str(t)[-2:])`: the minute field. */
  function LastTwoValue(t: nat): (v: nat)
    ensures ParseInt(LastTwo(t)) == Some(v)
    ensures v < 100
  {
    LastTwoFacts(t);
    t % 100
  }

  /** An HHMM value whose minute field is a real minute. */
  predicate ValidHhmm(t: nat) {
    t % 100 < 60
  }

  /** Minutes since midnight that an HHMM value stands for. */
  function ToMinutes(t: nat): nat {
    (t / 100) * 60 + t % 100
  }

  /** Clock.tick's new time: add the interval, then turn a minute field
      of exactly 60 into the next hour (main.py:91-96). */
  function TickTime(t: nat, interval: nat): nat
  {
    var u := t + interval;
    if EndsIn60(u) then u + 40 else u
  }

  /** A tick of one minute keeps the HHMM encoding and advances it by exactly one minute. */
  lemma TickOneMinute(t: nat)
    requires ValidHhmm(t)
    ensures ValidHhmm(TickTime(t, 1))
    ensures ToMinutes(TickTime(t, 1)) == ToMinutes(t) + 1
  {
    var h, m := t / 100, t % 100;
    assert t == 100 * h + m;
    if m == 59 {
      assert (t + 1) % 100 == 60;
      assert t + 1 + 40 == 100 * (h + 1);
      assert (t + 41) / 100 == h + 1 && (t + 41) % 100 == 0;
    } else {
      assert (t + 1) / 100 == h && (t + 1) % 100 == m + 1;
    }
  }

  /** 0859 ticks to 0900 and 1159 to 1200 (not 0860 and 1160). */
  lemma TickExamples()
    ensures TickTime(859, 1) == 900
    ensures TickTime(1159, 1) == 1200
    ensures TickTime(855, 10) == 865
  {
  }

  /** The arrival time Truck.calc_arrival_time computes from the departure
      time and the rounded-up travel minutes: 40 is added at most once,
      when the minute field reads 60 or more (truck.py:79-83). */
  function ArrivalClock(t: nat, minutes: nat): nat
  {
    var u := t + minutes;
    if LastTwoValue(u) >= 60 then u + 40 else u
  }

  /** The correction is exact while the minute field stays below 100. */
  lemma ArrivalClockShortTrip(t: nat, minutes: nat)
    requires ValidHhmm(t) && t % 100 + minutes < 100
    ensures ValidHhmm(ArrivalClock(t, minutes))
    ensures ToMinutes(ArrivalClock(t, minutes)) == ToMinutes(t) + minutes
  {
    var h, m := t / 100, t % 100;
    assert t == 100 * h + m;
    var u := t + minutes;
    assert u / 100 == h && u % 100 == m + minutes;
    if m + minutes >= 60 {
      assert (u + 40) / 100 == h + 1 && (u + 40) % 100 == m + minutes - 60;
    }
  }

  /** A trip that carries the minute field past 99 loses the hour: leaving at
      0850 for 55 minutes gives 0905 rather than 0945. */
  lemma ArrivalClockLongTrip()
    ensures ArrivalClock(850, 55) == 905
    ensures ToMinutes(905) != ToMinutes(850) + 55
  {
  }
}
