/**
  The date part of a published file name: `{year:04}-{month:02}-{day:02}`,
  and a reader that takes such a prefix apart again.
 */
module Dates {
  import Text
  import Decimal

  datatype Option<T> = None | Some(value: T)

  /** A calendar date as three numbers, as `datetime.now()` supplies them. */
  datatype Date = Date(year: nat, month: nat, day: nat)

  /** The ranges `datetime` keeps its fields in (the day only up to 31, whatever the month). */
  predicate ValidDate(date: Date) {
    && 1 <= date.year <= 9999
    && 1 <= date.month <= 12
    && 1 <= date.day <= 31
  }

  /** Text made only of decimal digits and '-', as every date prefix is. */
  predicate IsStamp(s: string) {
    forall i :: 0 <= i < |s| ==> Decimal.IsDigit(s[i]) || s[i] == '-'
  }

  lemma StampConcat(a: string, b: string)
    requires IsStamp(a) && IsStamp(b)
    ensures IsStamp(a + b)
  {
    forall i | 0 <= i < |a + b|
      ensures Decimal.IsDigit((a + b)[i]) || (a + b)[i] == '-'
    {
      if i >= |a| {
        assert (a + b)[i] == b[i - |a|];
      }
    }
  }

  /** Three digit fields joined by '-' contain exactly two '-'. */
  lemma DashesBetween(y: string, m: string, d: string)
    requires Decimal.AllDigits(y) && Decimal.AllDigits(m) && Decimal.AllDigits(d)
    ensures Text.Occurrences(y + "-" + m + "-" + d, '-') == 2
  {
    Text.NotInOccurrences(y, '-');
    Text.NotInOccurrences(m, '-');
    Text.NotInOccurrences(d, '-');
    Text.OccurrencesConcat(y, "-", '-');
    Text.OccurrencesConcat(y + "-", m, '-');
    Text.OccurrencesConcat(y + "-" + m, "-", '-');
    Text.OccurrencesConcat(y + "-" + m + "-", d, '-');
  }

  /** Three digit fields joined by '-' form a stamp. */
  lemma FieldsFormStamp(y: string, m: string, d: string)
    requires Decimal.AllDigits(y) && Decimal.AllDigits(m) && Decimal.AllDigits(d)
    ensures IsStamp(y + "-" + m + "-" + d)
  {
    StampConcat(y, "-");
    StampConcat(y + "-", m);
    StampConcat(y + "-" + m, "-");
    StampConcat(y + "-" + m + "-", d);
  }

  /** `f'{year:04}-{month:02}-{day:02}'`: zero-padded fields joined by '-'. */
  function DatePrefix(date: Date): (prefix: string)
    ensures IsStamp(prefix)
    ensures Text.Occurrences(prefix, '-') == 2
  {
    var y := Decimal.PadNat(date.year, 4);
    var m := Decimal.PadNat(date.month, 2);
    var d := Decimal.PadNat(date.day, 2);
    DashesBetween(y, m, d);
    FieldsFormStamp(y, m, d);
    y + "-" + m + "-" + d
  }

  /** Reads a `Y-M-D` string of digit fields back into a date: the inverse of `DatePrefix` on its image. */
  function ParseDate(s: string): Option<Date> {
    var fields := Text.Split(s, '-');
    if |fields| == 3
       && Decimal.AllDigits(fields[0])
       && Decimal.AllDigits(fields[1])
       && Decimal.AllDigits(fields[2])
    then Some(Date(Decimal.Value(fields[0]), Decimal.Value(fields[1]), Decimal.Value(fields[2])))
    else None
  }

  /** Three fields without '-' joined by '-' split back into those fields. */
  lemma FieldsSplit(y: string, m: string, d: string)
    requires '-' !in y && '-' !in m && '-' !in d
    ensures Text.Split(y + "-" + m + "-" + d, '-') == [y, m, d]
  {
    Text.JoinCons(m, [d], '-');
    Text.JoinCons(y, [m, d], '-');
    assert Text.Join([y, m, d], '-') == y + "-" + m + "-" + d;
    Text.SplitJoin([y, m, d], '-');
  }

  /** The date prefix of any date reads back as that date. */
  lemma DatePrefixRoundTrip(date: Date)
    ensures ParseDate(DatePrefix(date)) == Some(date)
  {
    var y := Decimal.PadNat(date.year, 4);
    var m := Decimal.PadNat(date.month, 2);
    var d := Decimal.PadNat(date.day, 2);
    FieldsSplit(y, m, d);
  }

  /** Different dates never share a prefix. */
  lemma DatePrefixInjective(a: Date, b: Date)
    requires DatePrefix(a) == DatePrefix(b)
    ensures a == b
  {
    DatePrefixRoundTrip(a);
    DatePrefixRoundTrip(b);
  }

  /** For a date in range the prefix is ten characters, YYYY-MM-DD, with '-' at indices 4 and 7. */
  lemma DatePrefixShape(date: Date)
    requires ValidDate(date)
    ensures var prefix := DatePrefix(date);
      && |prefix| == 10
      && prefix[4] == '-' && prefix[7] == '-'
      && forall i :: 0 <= i < 10 && i != 4 && i != 7 ==> Decimal.IsDigit(prefix[i])
  {
    Decimal.PadNatExactWidth(date.year, 4);
    Decimal.PadNatExactWidth(date.month, 2);
    Decimal.PadNatExactWidth(date.day, 2);
  }

  /** The year 2024 renders as "2024". */
  lemma ExampleYear()
    ensures Decimal.PadNat(2024, 4) == "2024"
  {
    assert Decimal.Show(20) == "20";
    assert Decimal.Show(202) == "202";
    assert Decimal.Show(2024) == "2024";
  }

  /** A one-digit number padded to two places is '0' and its digit. */
  lemma PadOneDigit(n: nat)
    requires n < 10
    ensures Decimal.PadNat(n, 2) == ['0', Decimal.DigitChar(n)]
  {
    assert Decimal.Show(n) == [Decimal.DigitChar(n)];
    assert Decimal.Zeros(1) == "0";
  }

  /** 5 March 2024 renders as "2024-03-05". */
  lemma ExampleDatePrefix()
    ensures DatePrefix(Date(2024, 3, 5)) == "2024-03-05"
  {
    ExampleYear();
    PadOneDigit(3);
    PadOneDigit(5);
    assert Decimal.DigitChar(3) == '3' && Decimal.DigitChar(5) == '5';
  }
}
