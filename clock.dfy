/** The "HH:MM" text form of clock times: how the scheduler writes a time
    (`String(n).padStart(2, '0')`), reads it back (`split(':').map(Number)`),
    and compares two of them (JavaScript's `<` on strings). */
module Clock {

  predicate IsDigit(c: char) { '0' <= c <= '9' }

  function DigitValue(c: char): (v: nat)
    requires IsDigit(c)
    ensures v <= 9
  {
    c as int - '0' as int
  }

  function DigitChar(n: nat): (c: char)
    requires n <= 9
    ensures IsDigit(c) && DigitValue(c) == n
  {
    ('0' as int + n) as char
  }

  /** `String(n)` for a non-negative integer: its decimal digits, no leading zeros. */
  function Decimal(n: nat): (s: string)
  {
    if n < 10 then [DigitChar(n)] else Decimal(n / 10) + [DigitChar(n % 10)]
  }

  /** `s.padStart(2, '0')`: zeros in front until the string is two characters long. */
  function PadStart2(s: string): (r: string)
  {
    if |s| == 0 then "00" else if |s| == 1 then "0" + s else s
  }

  /** The template `${pad(hours)}:${pad(minutes)}` every time in the scheduler is written with. */
  function Format(hours: nat, minutes: nat): string {
    PadStart2(Decimal(hours)) + ":" + PadStart2(Decimal(minutes))
  }

  /** A well-formed clock string: two digits, a colon, two digits, minutes 00-59.
      Hours run 00-99, which is as far as the fixed width reaches. */
  predicate IsClock(t: string) {
    |t| == 5 && IsDigit(t[0]) && IsDigit(t[1]) && t[2] == ':' && '0' <= t[3] <= '5' && IsDigit(t[4])
  }

  function Hours(t: string): (h: nat)
    requires IsClock(t)
    ensures h < 100
  {
    DigitValue(t[0]) * 10 + DigitValue(t[1])
  }

  function Mins(t: string): (m: nat)
    requires IsClock(t)
    ensures m < 60
  {
    DigitValue(t[3]) * 10 + DigitValue(t[4])
  }

  /** Minutes since midnight, as `hours * 60 + minutes` computes it. */
  function ToMinutes(t: string): (m: nat)
    requires IsClock(t)
  {
    Hours(t) * 60 + Mins(t)
  }

  /** A time on the 24-hour clock. */
  predicate IsTimeOfDay(t: string) {
    IsClock(t) && Hours(t) < 24
  }

  /** JavaScript's `a < b` on strings: lexicographic by character code, a proper
      prefix before the longer string. */
  function Less(a: string, b: string): bool
    decreases |a|
  {
    if |b| == 0 then false
    else if |a| == 0 then true
    else if a[0] != b[0] then a[0] < b[0]
    else Less(a[1..], b[1..])
  }

  lemma TwoDigits(n: nat)
    requires n < 100
    ensures PadStart2(Decimal(n)) == [DigitChar(n / 10), DigitChar(n % 10)]
  {
    if n >= 10 {
      assert Decimal(n) == Decimal(n / 10) + [DigitChar(n % 10)];
    }
  }

  /** The five characters Format writes for hours below 100 and minutes below 60. */
  lemma FormatChars(hours: nat, minutes: nat)
    requires hours < 100 && minutes < 60
    ensures Format(hours, minutes) == [DigitChar(hours / 10), DigitChar(hours % 10), ':', DigitChar(minutes / 10), DigitChar(minutes % 10)]
  {
    TwoDigits(hours);
    TwoDigits(minutes);
    var x, y := PadStart2(Decimal(hours)), PadStart2(Decimal(minutes));
    JoinFields(x, y);
  }

  lemma JoinFields(x: string, y: string)
    requires |x| == 2 && |y| == 2
    ensures x + ":" + y == [x[0], x[1], ':', y[0], y[1]]
  {
  }

  /** The five characters for hours below 100 and minutes below 60 form a
      well-formed clock string that reads back as the same two numbers. */
  lemma CharsAreClock(hours: nat, minutes: nat)
    requires hours < 100 && minutes < 60
    ensures var t := [DigitChar(hours / 10), DigitChar(hours % 10), ':', DigitChar(minutes / 10), DigitChar(minutes % 10)];
      IsClock(t) && Hours(t) == hours && Mins(t) == minutes
  {
    var t := [DigitChar(hours / 10), DigitChar(hours % 10), ':', DigitChar(minutes / 10), DigitChar(minutes % 10)];
    assert t[3] == DigitChar(minutes / 10) && minutes / 10 <= 5;
    assert DigitValue(t[0]) == hours / 10 && DigitValue(t[1]) == hours % 10;
    assert DigitValue(t[3]) == minutes / 10 && DigitValue(t[4]) == minutes % 10;
  }

  /** Writing hours below 100 and minutes below 60 gives a well-formed clock
      string that reads back as the same two numbers. */
  lemma FormatIsClock(hours: nat, minutes: nat)
    requires hours < 100 && minutes < 60
    ensures IsClock(Format(hours, minutes))
    ensures Hours(Format(hours, minutes)) == hours && Mins(Format(hours, minutes)) == minutes
    ensures ToMinutes(Format(hours, minutes)) == hours * 60 + minutes
  {
    FormatChars(hours, minutes);
    CharsAreClock(hours, minutes);
  }

  /** Every well-formed clock string is what Format writes for its own fields. */
  lemma FormatOfFields(t: string)
    requires IsClock(t)
    ensures Format(Hours(t), Mins(t)) == t
  {
    var h, m := Hours(t), Mins(t);
    FormatChars(h, m);
    FieldChars(t);
  }

  lemma FieldChars(t: string)
    requires IsClock(t)
    ensures t == [DigitChar(Hours(t) / 10), DigitChar(Hours(t) % 10), ':', DigitChar(Mins(t) / 10), DigitChar(Mins(t) % 10)]
  {
    var h, m := Hours(t), Mins(t);
    assert h / 10 == DigitValue(t[0]) && h % 10 == DigitValue(t[1]);
    assert m / 10 == DigitValue(t[3]) && m % 10 == DigitValue(t[4]);
    assert DigitChar(DigitValue(t[0])) == t[0];
    assert DigitChar(DigitValue(t[1])) == t[1];
    assert DigitChar(DigitValue(t[3])) == t[3];
    assert DigitChar(DigitValue(t[4])) == t[4];
  }

  /** Two well-formed clock strings for the same minute are the same string. */
  lemma ClockInjective(a: string, b: string)
    requires IsClock(a) && IsClock(b)
    requires ToMinutes(a) == ToMinutes(b)
    ensures a == b
  {
    assert Hours(a) == ToMinutes(a) / 60 && Mins(a) == ToMinutes(a) % 60;
    assert Hours(b) == ToMinutes(b) / 60 && Mins(b) == ToMinutes(b) % 60;
    FormatOfFields(a);
    FormatOfFields(b);
  }

  /** On well-formed clock strings, string order is numeric order: this is why
      the scheduler may compare times as text. */
  lemma {:induction false} LessIsNumeric(a: string, b: string)
    requires IsClock(a) && IsClock(b)
    ensures Less(a, b) <==> ToMinutes(a) < ToMinutes(b)
  {
    assert Less(a, b) == if a[0] != b[0] then a[0] < b[0] else Less(a[1..], b[1..]);
    assert Less(a[1..], b[1..]) == if a[1] != b[1] then a[1] < b[1] else Less(a[2..], b[2..]);
    assert Less(a[2..], b[2..]) == Less(a[3..], b[3..]);
    assert Less(a[3..], b[3..]) == if a[3] != b[3] then a[3] < b[3] else Less(a[4..], b[4..]);
    assert Less(a[4..], b[4..]) == if a[4] != b[4] then a[4] < b[4] else Less(a[5..], b[5..]);
    assert Less(a[5..], b[5..]) == false;
  }
}
