/** Fixed-width time arithmetic of the timeout driver.

    absolutetime_t is declared in timeout.h, which is not part of this model.
    The driver treats it as an unsigned integer (it is shifted right to get
    half its range and printed through a 32-bit cast), and this model takes it
    to be 32 bits wide: every sum and difference of absolute times wraps
    modulo 2^32.  The hardware counter TCA0 is 16 bits wide. */
module Ticks {

  /** 2^32: absolute times live in [0, Modulus). */
  const Modulus: int := 0x1_0000_0000

  /** A value of type absolutetime_t. */
  type Word = x: int | 0 <= x < Modulus

  /** 2^16: the range of the TCA0 count register. */
  const CounterModulus: int := 0x1_0000

  /** A value of the 16-bit register TCA0.SINGLE.CNT. */
  type Counter = c: int | 0 <= c < CounterModulus

  /** The longest duration one load of TCA0 can count (the constant 65535 of the driver). */
  const MaxLoad: Word := 0xFFFF

  /** (absolutetime_t)-1 >> 1: half the range of an absolute time, the stopwatch's timeout. */
  const Half: Word := (Modulus - 1) / 2

  /** Unsigned addition of absolutetime_t. */
  function Add(a: Word, b: Word): Word
  {
    (a + b) % Modulus
  }

  /** Unsigned subtraction of absolutetime_t. */
  function Sub(a: Word, b: Word): Word
  {
    (a - b) % Modulus
  }

  /** A sum or difference of two words is off by at most one wrap. */
  lemma Wrap(x: int)
    requires -Modulus < x < 2 * Modulus
    ensures x % Modulus == if x < 0 then x + Modulus else if x < Modulus then x else x - Modulus
  {
  }

  /** Subtracting a smaller word does not wrap. */
  lemma SubNoWrap(a: Word, b: Word)
    requires b <= a
    ensures Sub(a, b) == a - b
  {
    Wrap(a - b);
  }

  /** Subtraction undoes addition. */
  lemma {:induction false} SubAdd(a: Word, b: Word)
    ensures Sub(Add(a, b), a) == b
  {
    Wrap(a + b);
    Wrap(Add(a, b) - a);
  }

  /** Addition of words is associative. */
  lemma {:induction false} AddAssoc(a: Word, b: Word, c: Word)
    ensures Add(Add(a, b), c) == Add(a, Add(b, c))
  {
    Wrap(a + b);
    Wrap(b + c);
    Wrap(Add(a, b) + c);
    Wrap(a + Add(b, c));
  }

  /** Subtracting a common base from two words leaves their difference unchanged:
      the distance between a deadline and the watermark survives a rebase. */
  lemma {:induction false} SubRebased(a: Word, b: Word, base: Word)
    ensures Sub(Sub(a, base), Sub(b, base)) == Sub(a, b)
  {
    Wrap(a - base);
    Wrap(b - base);
    Wrap(Sub(a, base) - Sub(b, base));
    Wrap(a - b);
  }

  /** A dummy deadline one full load after the watermark comes no later than a
      head h that lies more than a full load ahead, provided h is reached from
      the watermark without wrapping, or some earlier deadline h0 <= h was
      already within one load of the watermark. */
  lemma {:induction false} ChainFits(wm: Word, h0: Word, h: Word)
    requires h0 <= h
    requires wm <= h0 || Sub(h0, wm) <= MaxLoad
    requires Sub(h, wm) > MaxLoad
    ensures Add(wm, MaxLoad) <= h
  {
    Wrap(h0 - wm);
    Wrap(h - wm);
    Wrap(wm + MaxLoad);
  }

  /** The deadline TIMER_0_sorted_insert gives a timer that fell below the
      watermark, once the list is rebased on base: it adds 65535 - base + 1. */
  function WrapShift(d: Word, base: Word): Word
  {
    Add(d, Add(Sub(MaxLoad, base), 1))
  }

  /** Under a 32-bit absolutetime_t the corrected deadline lands exactly 65536
      ticks after the deadline rebased by plain subtraction. */
  lemma {:induction false} WrapShiftOffset(d: Word, base: Word)
    ensures Sub(WrapShift(d, base), Sub(d, base)) == 0x1_0000
  {
    Wrap(MaxLoad - base);
    Wrap(Sub(MaxLoad, base) + 1);
    Wrap(d + Add(Sub(MaxLoad, base), 1));
    Wrap(d - base);
    Wrap(WrapShift(d, base) - Sub(d, base));
  }

  /** The distance from c to a is the distance from c to b plus the distance from b to a. */
  lemma {:induction false} SubChain(a: Word, b: Word, c: Word)
    ensures Sub(a, c) == Add(Sub(a, b), Sub(b, c))
  {
    Wrap(a - b);
    Wrap(b - c);
    Wrap(Sub(a, b) + Sub(b, c));
    Wrap(a - c);
  }

  /** A deadline given the line-152 correction lies 65536 ticks further from
      the rebased watermark than the deadline lay from the watermark. */
  lemma {:induction false} WrapShiftDistance(d: Word, w: Word, base: Word)
    ensures Sub(WrapShift(d, base), Sub(w, base)) == Add(Sub(d, w), 0x1_0000)
  {
    WrapShiftOffset(d, base);
    SubRebased(d, w, base);
    SubChain(WrapShift(d, base), Sub(d, base), Sub(w, base));
    Wrap(0x1_0000 + Sub(d, w));
  }

  /** A time x + e ticks after w is x ticks after w + e. */
  lemma {:induction false} SubFromLater(a: Word, w: Word, x: Word, e: Word)
    requires Sub(a, w) == Add(x, e)
    ensures Sub(a, Add(w, e)) == x
  {
    Wrap(w + e);
    Wrap(a - w);
    Wrap(x + e);
    Wrap(a - Add(w, e));
  }

  /** The stopwatch's arithmetic: half the range less the time still to run
      to a deadline set half the range after start is the time since start. */
  lemma {:induction false} HalfLessRemaining(start: Word, now: Word)
    ensures Sub(Half, Sub(Add(Half, start), now)) == Sub(now, start)
  {
    Wrap(Half + start);
    Wrap(Add(Half, start) - now);
    Wrap(Half - Sub(Add(Half, start), now));
    Wrap(now - start);
  }

  /** Going back to a time w from e ticks after it takes 0 - e ticks. */
  lemma {:induction false} SubAfter(w: Word, e: Word)
    ensures Sub(w, Add(w, e)) == Sub(0, e)
  {
    Wrap(w + e);
    Wrap(w - Add(w, e));
    Wrap(0 - e);
  }

  /** Rebasing the watermark before or after adding the elapsed ticks agrees. */
  lemma {:induction false} AddSubComm(w: Word, e: Word, base: Word)
    ensures Add(Sub(w, base), e) == Sub(Add(w, e), base)
  {
    Wrap(w - base);
    Wrap(Sub(w, base) + e);
    Wrap(w + e);
    Wrap(Add(w, e) - base);
  }
}
