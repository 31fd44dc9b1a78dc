/** Alignment and ranges (kernel/src/mm/arithmetics.rs). */
module Arithmetics {
  import opened Wrappers
  import opened Bits
  import opened Sv39Format

  const PAGE_ORDER: nat := 12

  lemma LowMask(order: nat)
    requires order < 64
    ensures Shl(1, order) == Pow2(order)
    ensures 1 <= Pow2(order) < TWO64
  {
    Pow2Values();
    Pow2Lt(order, 64);
  }

  lemma AndHigh(val: Word, order: nat)
    requires order < 64
    ensures Pow2(order) <= TWO64
    ensures And(val, TWO64 - Pow2(order)) == val - val % Pow2(order)
  {
    Pow2Values();
    AndRun(val, 64, order);
  }

  lemma RoundedIsMultiple(val: nat, d: nat)
    requires d > 0
    ensures (val - val % d) % d == 0
  {
    ModUnique(val - val % d, d, val / d, 0);
  }

  /** The greatest multiple of 2^order not above val. */
  function AlignDown(val: Word, order: nat): (r: Word)
    requires order < 64
    ensures r % Pow2(order) == 0 && r <= val < r + Pow2(order)
  {
    LowMask(order);
    AndHigh(val, order);
    RoundedIsMultiple(val, Pow2(order));
    And(val, Not(Shl(1, order) - 1))
  }

  /** The least multiple of 2^order not below val; the addition overflows exactly when
      the precondition fails. */
  function AlignUp(val: Word, order: nat): (r: Word)
    requires order < 64 && val + Pow2(order) - 1 < TWO64
    ensures r % Pow2(order) == 0 && val <= r < val + Pow2(order)
  {
    LowMask(order);
    var o := Shl(1, order) - 1;
    RoundedUp(val, order);
    And(val + o, Not(o))
  }

  lemma RoundedUp(val: Word, order: nat)
    requires order < 64 && val + Pow2(order) - 1 < TWO64
    ensures var o := Pow2(order) - 1;
            var r := And(val + o, Not(o));
            r % Pow2(order) == 0 && val <= r < val + Pow2(order)
  {
    hide And, Pow2;
    var o := Pow2(order) - 1;
    AndHigh(val + o, order);
    RoundedIsMultiple(val + o, Pow2(order));
  }

  lemma MultiplesApart(a: nat, b: nat, d: nat)
    requires d > 0 && a % d == 0 && b % d == 0 && a < b
    ensures a + d <= b
  {
    assert a == d * (a / d) && b == d * (b / d);
    MulGe(d, b / d - a / d);
    assert d * (b / d - a / d) == b - a;
    if b / d <= a / d {
      MulGe(d, a / d - b / d);
    }
  }

  /** The bit masks compute the nearest multiples, whatever the order. */
  lemma AlignNearest(val: Word, order: nat, m: nat)
    requires order < 64 && m % Pow2(order) == 0
    ensures m <= val ==> m <= AlignDown(val, order)
    ensures val + Pow2(order) - 1 < TWO64 && val <= m ==> AlignUp(val, order) <= m
  {
    var d := Pow2(order);
    if m <= val && AlignDown(val, order) < m {
      MultiplesApart(AlignDown(val, order), m, d);
    }
    if val + d - 1 < TWO64 && val <= m && m < AlignUp(val, order) {
      MultiplesApart(m, AlignUp(val, order), d);
    }
  }

  function PgRoundDown(val: Word): (r: Word)
    ensures r == val / PAGE_SIZE * PAGE_SIZE
  {
    Pow2Values();
    var r := AlignDown(val, PAGE_ORDER);
    ModUnique(val, PAGE_SIZE, r / PAGE_SIZE, val - r);
    r
  }

  function PgRoundUp(val: Word): (r: Word)
    requires val + PAGE_SIZE - 1 < TWO64
    ensures r == (val + PAGE_SIZE - 1) / PAGE_SIZE * PAGE_SIZE
  {
    Pow2Values();
    var r := AlignUp(val, PAGE_ORDER);
    ModUnique(val + PAGE_SIZE - 1, PAGE_SIZE, r / PAGE_SIZE, val + PAGE_SIZE - 1 - r);
    r
  }

  // ------------------------------------------------------------ SimpleRange

  /** The numbers begin, begin + 1, ... up to but not including end. */
  function Range(begin: nat, end: nat): (s: seq<nat>)
    ensures |s| == if begin <= end then end - begin else 0
    ensures forall i :: 0 <= i < |s| ==> s[i] == begin + i
  {
    if begin < end then seq(end - begin, i requires i >= 0 => begin + i) else []
  }

  /** One call of the iterator: it compares with `==` only. */
  function Advance(current: Word, end: Word): Outcome<(Option<Word>, Word)> {
    if current == end then Ok((None, current))
    else if current == TWO64 - 1 then Panic
    else Ok((Some(current), current + 1))
  }

  class SimpleRangeIterator {
    var current: Word
    const end: Word

    constructor (begin: Word, end: Word)
      ensures this.current == begin && this.end == end
    {
      this.current := begin;
      this.end := end;
    }

    method Next() returns (r: Outcome<Option<Word>>)
      modifies this
      ensures match Advance(old(current), end)
              case Panic => r.Panic?
              case Ok((item, next)) => r == Ok(item) && current == next
    {
      if current == end {
        r := Ok(None);
      } else if current == TWO64 - 1 {
        r := Panic;
      } else {
        r := Ok(Some(current));
        current := current + 1;
      }
    }
  }

  /** What at most n calls of the iterator yield. */
  function Yields(current: Word, end: Word, n: nat): Outcome<seq<Word>>
    decreases n
  {
    if n == 0 then Ok([])
    else
      var (item, next) :- Advance(current, end);
      if item.None? then Ok([])
      else
        var rest :- Yields(next, end, n - 1);
        Ok([item.value] + rest)
  }

  /** A range with begin <= end yields each number once, in order, and then stops; the
      distance to the end bounds the number of calls. */
  lemma {:induction false} YieldsForward(begin: Word, end: Word, n: nat)
    requires begin <= end
    ensures Yields(begin, end, n) == Ok(Range(begin, if n <= end - begin then begin + n else end))
    decreases n
  {
    if n > 0 && begin < end {
      YieldsForward(begin + 1, end, n - 1);
      var last := if n <= end - begin then begin + n else end;
      assert Range(begin, last) == [begin] + Range(begin + 1, last);
    }
  }

  /** A range with begin > end never stops: it yields until the counter overflows. */
  lemma {:induction false} YieldsBackward(begin: Word, end: Word, n: nat)
    requires begin > end
    ensures Yields(begin, end, n) == if begin + n < TWO64 then Ok(Range(begin, begin + n)) else Panic
    decreases n
  {
    if n > 0 && begin + 1 < TWO64 {
      YieldsBackward(begin + 1, end, n - 1);
      assert Range(begin, begin + n) == [begin] + Range(begin + 1, begin + n);
    }
  }
}
