/** Century correction of birth dates, the age window and the derived Age
    column of the transaction table. */
module Ages {
  import opened Calendar
  import opened Records
  import opened Sequences

  /** The repair of a birth date whose two-digit year was read into the wrong
      century: a birth date on or after the transaction date is moved back 100
      years (with `DateOffset`'s clamping of 29 February); any other birth date
      is kept. It reads nothing but the row's own two dates. */
  function CorrectBirthDate(dob: CalendarDate, txDate: CalendarDate): (r: CalendarDate)
    ensures Precedes(dob, txDate) ==> r == dob
    ensures !Precedes(dob, txDate) ==>
      && r.year == dob.year - 100 && r.month == dob.month
      && r.day == (if dob.month == 2 && dob.day == 29 && !IsLeapYear(r.year) then 28 else dob.day)
    ensures dob.year < txDate.year + 100 ==> Precedes(r, txDate)
  {
    if !Precedes(dob, txDate) then ShiftYears(dob, -100) else dob
  }

  /** A birth year read into the wrong century is moved back, 29 February
      becomes 28 February when the target year is not a leap year, and a birth
      date already before the transaction is kept. */
  lemma CorrectBirthDateExamples()
    ensures CorrectBirthDate(Date(2085, 1, 1), Date(2023, 6, 15)) == Date(1985, 1, 1)
    ensures CorrectBirthDate(Date(2000, 2, 29), Date(1990, 1, 1)) == Date(1900, 2, 28)
    ensures CorrectBirthDate(Date(2004, 2, 29), Date(2004, 2, 29)) == Date(1904, 2, 29)
    ensures CorrectBirthDate(Date(1985, 1, 1), Date(2023, 6, 15)) == Date(1985, 1, 1)
  {
  }

  /** The row after its CustomerDOB cell is corrected. */
  function Corrected(rec: Record): Record {
    rec.(dob := CorrectBirthDate(rec.dob, rec.txDate))
  }

  /** The table with every row's birth date corrected. */
  function CorrectedAll(rows: seq<Record>): (r: seq<Record>)
    ensures |r| == |rows|
    ensures forall i :: 0 <= i < |rows| ==> r[i] == Corrected(rows[i])
  {
    seq(|rows|, i requires 0 <= i < |rows| => Corrected(rows[i]))
  }

  /** `df['CustomerDOB'] = df.apply(...)`: the birth-date column is overwritten
      row by row; every other cell, the row count and the row order stay. */
  method CorrectBirthDates(rows: seq<Record>) returns (corrected: seq<Record>)
    ensures |corrected| == |rows|
    ensures forall i :: 0 <= i < |rows| ==>
      corrected[i] == rows[i].(dob := CorrectBirthDate(rows[i].dob, rows[i].txDate))
    ensures corrected == CorrectedAll(rows)
  {
    corrected := rows;
    var i := 0;
    while i < |corrected|
      invariant 0 <= i <= |corrected| == |rows|
      invariant forall k :: 0 <= k < i ==> corrected[k] == Corrected(rows[k])
      invariant forall k :: i <= k < |rows| ==> corrected[k] == rows[k]
    {
      corrected := corrected[i := Corrected(corrected[i])];
      i := i + 1;
    }
  }

  /** `cutoff_date`: 1 January of the year a century before the transaction. */
  function CutoffDate(txDate: CalendarDate): CalendarDate {
    Date(txDate.year - 100, 1, 1)
  }

  /** The first age filter: born no earlier than the cutoff year. */
  predicate BornWithinCentury(r: Record) {
    r.dob.year >= CutoffDate(r.txDate).year
  }

  /** The second age filter: born at least 18 calendar years before the transaction. */
  predicate OfAdultAge(r: Record) {
    r.dob.year <= r.txDate.year - 18
  }

  predicate InAgeWindow(r: Record) {
    BornWithinCentury(r) && OfAdultAge(r)
  }

  /** Age in whole calendar years. Each filter is a bound on it, and both
      bounds are inclusive. */
  function Age(r: Record): (a: int)
    ensures OfAdultAge(r) <==> 18 <= a
    ensures BornWithinCentury(r) <==> a <= 100
    ensures InAgeWindow(r) <==> 18 <= a <= 100
  {
    r.txDate.year - r.dob.year
  }

  /** A row of the cleaned transaction table, with the two columns the
      pipeline adds: `cutoff_date` and `Age`. */
  datatype Fact = Fact(record: Record, cutoff: CalendarDate, age: int)

  /** The row with its two added columns. */
  function FactOf(r: Record): Fact {
    Fact(r, CutoffDate(r.txDate), Age(r))
  }

  /** The table with its two added columns. */
  function FactsOf(rows: seq<Record>): (facts: seq<Fact>)
    ensures |facts| == |rows|
    ensures forall i :: 0 <= i < |rows| ==> facts[i] == FactOf(rows[i])
  {
    seq(|rows|, i requires 0 <= i < |rows| => FactOf(rows[i]))
  }

  /** `df['Age'] = ...`: one fact per row, in the same order. */
  method AddAge(rows: seq<Record>) returns (facts: seq<Fact>)
    ensures |facts| == |rows|
    ensures forall i :: 0 <= i < |rows| ==>
      facts[i].record == rows[i] && facts[i].cutoff == CutoffDate(rows[i].txDate)
      && facts[i].age == rows[i].txDate.year - rows[i].dob.year
    ensures (forall i :: 0 <= i < |rows| ==> InAgeWindow(rows[i])) ==>
      forall i :: 0 <= i < |facts| ==> 18 <= facts[i].age <= 100
    ensures facts == FactsOf(rows)
  {
    facts := [];
    var i := 0;
    while i < |rows|
      invariant 0 <= i <= |rows|
      invariant |facts| == i
      invariant forall k :: 0 <= k < i ==> facts[k] == FactOf(rows[k])
    {
      facts := facts + [FactOf(rows[i])];
      i := i + 1;
    }
  }

  /** The two age filters, applied one after the other, keep exactly the rows
      inside the window, in order; every survivor was born before its
      transaction date. */
  lemma AgeFiltersSelectWindow(rows: seq<Record>)
    ensures Filter(OfAdultAge, Filter(BornWithinCentury, rows)) == Filter(InAgeWindow, rows)
    ensures IsSubsequence(Filter(InAgeWindow, rows), rows)
    ensures forall r :: r in Filter(InAgeWindow, rows) ==>
      r.txDate.year - 100 <= r.dob.year <= r.txDate.year - 18 && Precedes(r.dob, r.txDate)
  {
    FilterFilter(BornWithinCentury, OfAdultAge, InAgeWindow, rows);
    FilterIsSubsequence(InAgeWindow, rows);
  }

  predicate HasNegativeAge(f: Fact) {
    f.age < 0
  }

  /** `df[df['Age'] < -0]` selects nothing from a table whose ages lie in the window. */
  lemma NoNegativeAges(facts: seq<Fact>)
    requires forall i :: 0 <= i < |facts| ==> 18 <= facts[i].age <= 100
    ensures Filter(HasNegativeAge, facts) == []
  {
    FilterNone(HasNegativeAge, facts);
  }
}
