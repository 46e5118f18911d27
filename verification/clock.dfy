/** Wall-clock times of the form "HH:mm", delay arithmetic on them
    (`getDelayedTime`), their zero-padded text and the order in which such
    texts compare. */
module ClockTime {
  import opened Common

  const MinutesPerDay := 1440

  /** The two numbers read from a time string by `time.split(':').map(Number)`.
      Stored schedule times are written zero-padded ("08:05"), so a stored
      time and its `Text` are the same string. */
  datatype Clock = Clock(hours: int, minutes: int)

  /** Minutes since midnight, `h * 60 + m`, with no wrap-around. */
  function Minutes(c: Clock): int
  {
    c.hours * 60 + c.minutes
  }

  /** A time of day on the 24-hour clock. */
  predicate WellFormed(c: Clock)
  {
    0 <= c.hours < 24 && 0 <= c.minutes < 60
  }

  /* ---------------------------------------------------------------------- */
  /* Decimal text                                                            */

  function Digit(d: int): char
    requires 0 <= d < 10
  {
    (48 + d) as char
  }

  predicate IsDigit(ch: char)
  {
    '0' <= ch <= '9'
  }

  function DigitValue(ch: char): int
    requires IsDigit(ch)
  {
    ch as int - 48
  }

  /** `String(n)` for a natural number. */
  function NatText(n: nat): string
    decreases n
  {
    if n < 10 then [Digit(n)] else NatText(n / 10) + [Digit(n % 10)]
  }

  /** `String(i)` for an integer. */
  function IntText(i: int): string
  {
    if i < 0 then "-" + NatText(-i) else NatText(i)
  }

  /** A number's text is made of digits only. */
  lemma {:induction false} NatTextDigits(n: nat)
    ensures forall i :: 0 <= i < |NatText(n)| ==> IsDigit(NatText(n)[i])
    decreases n
  {
    if n >= 10 {
      NatTextDigits(n / 10);
      var t := NatText(n);
      assert t == NatText(n / 10) + [Digit(n % 10)];
    }
  }

  /** Two numbers with the same text are the same number. */
  lemma {:induction false} NatTextInjective(a: nat, b: nat)
    requires NatText(a) == NatText(b)
    ensures a == b
    decreases a
  {
    var ta, tb := NatText(a), NatText(b);
    if a >= 10 && b >= 10 {
      assert ta == NatText(a / 10) + [Digit(a % 10)];
      assert tb == NatText(b / 10) + [Digit(b % 10)];
      assert NatText(a / 10) == ta[..|ta| - 1];
      assert NatText(b / 10) == tb[..|tb| - 1];
      assert Digit(a % 10) == ta[|ta| - 1] == Digit(b % 10);
      NatTextInjective(a / 10, b / 10);
    }
  }

  /** Two integers with the same text are the same integer. */
  lemma {:induction false} IntTextInjective(i: int, j: int)
    requires IntText(i) == IntText(j)
    ensures i == j
  {
    var ti := IntText(i);
    if i < 0 && j < 0 {
      assert NatText(-i) == ti[1..] == NatText(-j);
      NatTextInjective(-i, -j);
    } else if i >= 0 && j >= 0 {
      NatTextInjective(i, j);
    } else if i < 0 {
      MinusIsNoDigit(-i, j);
    } else {
      MinusIsNoDigit(-j, i);
    }
  }

  /** A negative number's text never reads as a natural number's. */
  lemma MinusIsNoDigit(n: nat, m: nat)
    ensures "-" + NatText(n) != NatText(m)
  {
    NatTextDigits(m);
    assert ("-" + NatText(n))[0] == '-';
  }

  /** `String(i).padStart(2, '0')`. */
  function Pad2(i: int): string
  {
    var t := IntText(i);
    if |t| < 2 then "0" + t else t
  }

  /** The "HH:mm" text of a clock reading, each part padded to two characters. */
  function Text(c: Clock): string
  {
    Pad2(c.hours) + ":" + Pad2(c.minutes)
  }

  /** The text of an optional time; an absent time reads as the empty string
      (the `|| ''` of the sort comparator, and the `''` of the time formatter). */
  function TimeText(t: Option<Clock>): string
  {
    if t.Some? then Text(t.value) else ""
  }

  /** Reads back a canonical five-character "HH:mm" text. */
  function ParseHHmm(s: string): Option<Clock>
  {
    if |s| == 5 && IsDigit(s[0]) && IsDigit(s[1]) && s[2] == ':' && IsDigit(s[3]) && IsDigit(s[4])
    then Some(Clock(10 * DigitValue(s[0]) + DigitValue(s[1]), 10 * DigitValue(s[3]) + DigitValue(s[4])))
    else None
  }

  lemma Pad2TwoDigits(n: int)
    requires 0 <= n < 100
    ensures Pad2(n) == [Digit(n / 10), Digit(n % 10)]
  {
    if n >= 10 {
      assert NatText(n / 10) == [Digit(n / 10)];
    }
  }

  /** A clock with two-digit fields prints as five characters: two digits,
      a colon, two digits. */
  lemma TextTwoDigits(c: Clock)
    requires 0 <= c.hours < 100 && 0 <= c.minutes < 100
    ensures Text(c) == [Digit(c.hours / 10), Digit(c.hours % 10), ':', Digit(c.minutes / 10), Digit(c.minutes % 10)]
  {
    Pad2TwoDigits(c.hours);
    Pad2TwoDigits(c.minutes);
  }

  /** Printing then reading back a two-digit clock gives the same clock. */
  lemma {:induction false} ParseOfText(c: Clock)
    requires 0 <= c.hours < 100 && 0 <= c.minutes < 100
    ensures ParseHHmm(Text(c)) == Some(c)
  {
    TextTwoDigits(c);
  }

  /** Reading then printing a canonical text gives the same text. */
  lemma {:induction false} TextOfParse(s: string)
    requires ParseHHmm(s).Some?
    ensures Text(ParseHHmm(s).value) == s
    ensures 0 <= ParseHHmm(s).value.hours < 100 && 0 <= ParseHHmm(s).value.minutes < 100
  {
    var c := ParseHHmm(s).value;
    DigitPair(s[0], s[1]);
    DigitPair(s[3], s[4]);
    TextTwoDigits(c);
    var t := Text(c);
    assert |t| == |s| && forall k :: 0 <= k < |s| ==> t[k] == s[k];
  }

  /** Two digit characters read as a number whose tens and units print back
      as the same two characters. */
  lemma DigitPair(a: char, b: char)
    requires IsDigit(a) && IsDigit(b)
    ensures var n := 10 * DigitValue(a) + DigitValue(b);
            0 <= n < 100 && Digit(n / 10) == a && Digit(n % 10) == b
  {
    var x, y := DigitValue(a), DigitValue(b);
    assert (10 * x + y) / 10 == x;
    assert (10 * x + y) % 10 == y;
  }

  /* ---------------------------------------------------------------------- */
  /* Delay arithmetic                                                        */

  /** JavaScript's `%`: the remainder takes the sign of the dividend. */
  function JsRem(a: int, b: int): (r: int)
    requires b > 0
    ensures a >= 0 ==> r == a % b
    ensures a < 0 ==> -b < r <= 0
    ensures (a - r) % b == 0
  {
    if a >= 0 then
      MultipleRem(a / b, b);
      a % b
    else
      var q := (-a) / b;
      var m := (-a) % b;
      assert a + m == (-q) * b;
      MultipleRem(-q, b);
      -m
  }

  /** A multiple of `b` leaves no remainder. */
  lemma MultipleRem(k: int, b: int)
    requires b > 0
    ensures (k * b) % b == 0
  {
    var x := k * b;
    var d := x / b - k;
    assert d >= 1 ==> d * b >= b;
    assert d <= -1 ==> d * b <= -b;
    assert d * b == x % b;
  }

  /** `getDelayedTime(time, delayMinutes)`: an absent time or a zero delay
      gives the time back; otherwise the total `h*60 + m + delay` is split
      by `SplitTotal`. */
  function DelayedTime(t: Option<Clock>, delay: int): (r: Option<Clock>)
    ensures t.None? || delay == 0 ==> r == t
    ensures t.Some? <==> r.Some?
    ensures t.Some? && delay != 0 && Minutes(t.value) + delay >= 0 ==>
              WellFormed(r.value) && Minutes(r.value) == (Minutes(t.value) + delay) % MinutesPerDay
    ensures t.Some? && delay != 0 && Minutes(t.value) + delay < 0 ==>
              -24 < r.value.hours <= 0 && -60 < r.value.minutes <= 0
    ensures t.Some? && delay != 0 && Minutes(t.value) + delay < 0 ==>
              var total := Minutes(t.value) + delay;
              (total - r.value.minutes) % 60 == 0 && (total / 60 - r.value.hours) % 24 == 0
  {
    if t.None? || delay == 0 then t
    else Some(SplitTotal(Minutes(t.value) + delay))
  }

  /** `Math.floor(total / 60) % 24` hours and `total % 60` minutes, with
      JavaScript's `%`: a time of day for a non-negative total, and fields
      at or below zero, congruent to the total's, for a negative one. */
  function SplitTotal(total: int): (c: Clock)
    ensures total >= 0 ==> WellFormed(c) && Minutes(c) == total % MinutesPerDay
    ensures total < 0 ==> -24 < c.hours <= 0 && -60 < c.minutes <= 0
    ensures (total - c.minutes) % 60 == 0 && (total / 60 - c.hours) % 24 == 0
  {
    if total >= 0 then
      DayWrap(total);
      Clock(JsRem(total / 60, 24), JsRem(total, 60))
    else
      Clock(JsRem(total / 60, 24), JsRem(total, 60))
  }

  /** Ten past midnight moved back by 75 minutes shows hours -2 and
      minutes -5, not 22:55. */
  lemma NegativeDelayExample()
    ensures DelayedTime(Some(Clock(0, 10)), -75) == Some(Clock(-2, -5))
  {
  }

  /** The bounds and congruences `SplitTotal` promises for a negative total
      leave only one possible clock. */
  lemma NegativeSplitPinned(total: int, c: Clock, d: Clock)
    requires total < 0
    requires -24 < c.hours <= 0 && -60 < c.minutes <= 0
    requires -24 < d.hours <= 0 && -60 < d.minutes <= 0
    requires (total - c.minutes) % 60 == 0 && (total / 60 - c.hours) % 24 == 0
    requires (total - d.minutes) % 60 == 0 && (total / 60 - d.hours) % 24 == 0
    ensures c == d
  {
    SmallMultipleIsZero(c.minutes - d.minutes, 60, total - d.minutes, total - c.minutes);
    SmallMultipleIsZero(c.hours - d.hours, 24, total / 60 - d.hours, total / 60 - c.hours);
  }

  /** A difference of two multiples of `b` lying strictly between `-b` and
      `b` is zero. */
  lemma SmallMultipleIsZero(x: int, b: int, p: int, q: int)
    requires b > 0 && p % b == 0 && q % b == 0 && x == p - q
    requires -b < x < b
    ensures x == 0
  {
    var m, n := p / b, q / b;
    assert p == m * b && q == n * b;
    assert x == (m - n) * b;
    assert m - n >= 1 ==> (m - n) * b >= b;
    assert m - n <= -1 ==> (m - n) * b <= -b;
  }

  /** Splitting a non-negative minute count into hours mod 24 and minutes
      is the count mod one day. */
  lemma DayWrap(total: int)
    ensures total >= 0 ==> ((total / 60) % 24) * 60 + total % 60 == total % MinutesPerDay
  {
    if total < 0 { return; }
    var q, r := total / 60, total % 60;
    var a, b := q / 24, q % 24;
    assert total == 60 * q + r;
    assert q == 24 * a + b;
    assert total == 1440 * a + (60 * b + r);
    assert 0 <= 60 * b + r < 1440;
    DayRemainder(total, a, 60 * b + r);
  }

  lemma DayRemainder(x: int, a: int, r: int)
    requires 0 <= r < MinutesPerDay && x == MinutesPerDay * a + r
    ensures x % MinutesPerDay == r
  {
  }

  /** A positive delay on a time of day lands on a time of day whose minute
      count is the shifted count, wrapped at midnight. */
  lemma {:induction false} DelayWrapsAtMidnight(c: Clock, delay: int)
    requires WellFormed(c) && delay > 0
    ensures DelayedTime(Some(c), delay).Some?
    ensures WellFormed(DelayedTime(Some(c), delay).value)
    ensures Minutes(DelayedTime(Some(c), delay).value) == (Minutes(c) + delay) % MinutesPerDay
    ensures Minutes(c) + delay < MinutesPerDay ==> Minutes(DelayedTime(Some(c), delay).value) == Minutes(c) + delay
  {
    assert Minutes(c) + delay >= 0;
    var total := Minutes(c) + delay;
    if total < MinutesPerDay {
      DayRemainder(total, 0, total);
    }
  }

  /* ---------------------------------------------------------------------- */
  /* Text order                                                              */

  /** Code-point lexicographic order on strings: the order `localeCompare`
      gives the digit-and-colon texts compared here. */
  predicate LexLe(a: string, b: string)
    decreases |a|
  {
    a == [] || (b != [] && (a[0] < b[0] || (a[0] == b[0] && LexLe(a[1..], b[1..]))))
  }

  lemma {:induction false} LexLeReflexive(a: string)
    ensures LexLe(a, a)
    decreases |a|
  {
    if a != [] {
      LexLeReflexive(a[1..]);
    }
  }

  lemma {:induction false} LexLeTotal(a: string, b: string)
    ensures LexLe(a, b) || LexLe(b, a)
    decreases |a|
  {
    if a != [] && b != [] && a[0] == b[0] {
      LexLeTotal(a[1..], b[1..]);
    }
  }

  lemma {:induction false} LexLeTransitive(a: string, b: string, c: string)
    requires LexLe(a, b) && LexLe(b, c)
    ensures LexLe(a, c)
    decreases |a|
  {
    if a != [] && a[0] == b[0] && b[0] == c[0] {
      LexLeTransitive(a[1..], b[1..], c[1..]);
    }
  }

  lemma {:induction false} LexLeAntisymmetric(a: string, b: string)
    requires LexLe(a, b) && LexLe(b, a)
    ensures a == b
    decreases |a|
  {
    if a != [] {
      LexLeAntisymmetric(a[1..], b[1..]);
      assert a == [a[0]] + a[1..] && b == [b[0]] + b[1..];
    }
  }

  /** One step of the lexicographic comparison. */
  lemma LexLeStep(a: string, b: string)
    requires a != [] && b != []
    ensures LexLe(a, b) <==> a[0] < b[0] || (a[0] == b[0] && LexLe(a[1..], b[1..]))
  {
  }

  /** Zero padding makes text order and time order agree: for two times of
      day, the "HH:mm" texts compare exactly as their minute counts do. */
  lemma {:induction false} TextOrderIsTimeOrder(c1: Clock, c2: Clock)
    requires WellFormed(c1) && WellFormed(c2)
    ensures LexLe(Text(c1), Text(c2)) <==> Minutes(c1) <= Minutes(c2)
  {
    TextTwoDigits(c1);
    TextTwoDigits(c2);
    var a, b := Text(c1), Text(c2);
    LexLeStep(a, b);
    LexLeStep(a[1..], b[1..]);
    LexLeStep(a[2..], b[2..]);
    LexLeStep(a[3..], b[3..]);
    LexLeStep(a[4..], b[4..]);
    assert a[1..][1..] == a[2..] && b[1..][1..] == b[2..];
    assert a[2..][1..] == a[3..] && b[2..][1..] == b[3..];
    assert a[3..][1..] == a[4..] && b[3..][1..] == b[4..];
    assert a[4..][1..] == [] && b[4..][1..] == [];
    var h1, h2, m1, m2 := c1.hours, c2.hours, c1.minutes, c2.minutes;
    assert LexLe(a, b) <==> h1 < h2 || (h1 == h2 && m1 <= m2) by {
      TwoDigitOrder(h1, h2);
      TwoDigitOrder(m1, m2);
    }
  }

  /** Two-digit numbers compare as their digit pairs do. */
  lemma TwoDigitOrder(x: int, y: int)
    requires 0 <= x < 100 && 0 <= y < 100
    ensures x < y <==> Digit(x / 10) < Digit(y / 10) || (Digit(x / 10) == Digit(y / 10) && Digit(x % 10) < Digit(y % 10))
    ensures x == y <==> Digit(x / 10) == Digit(y / 10) && Digit(x % 10) == Digit(y % 10)
  {
  }
}
