/** The star schema derived from the cleaned transaction table: the customer
    and transaction dimensions (column projections) and the time dimension
    (one row per distinct transaction date). */
module Schema {
  import opened Calendar
  import opened Decimal
  import opened Sequences
  import opened Records
  import opened Ages

  // ---------------------------------------------------------------- customer and transaction dimensions

  datatype CustomerRow = CustomerRow(
    customerId: string, dob: CalendarDate, gender: string, location: string,
    balance: Amount, age: int)

  /** A row of the transaction dimension; its fields are the columns
      `TransactionColumns`, in that order. */
  datatype TransactionRow = TransactionRow(
    transactionId: string, txDate: Timestamp, txTime: int, amount: Amount,
    customerId: string)

  /** The transaction columns as selected from the table ... */
  const SelectedTransactionColumns: seq<string> :=
    ["TransactionID", "TransactionDate", "TransactionTime", "TransactionAmount (INR)", "CustomerID"]

  /** ... and as the transaction dimension names them. */
  const TransactionColumns: seq<string> :=
    ["TransactionID", "TransactionDate", "TransactionTime", "TransactionAmount", "CustomerID"]

  /** `rename(columns={from: to})`: every column called `from` is called `to`,
      every other column keeps its name and place. */
  function Rename(columns: seq<string>, from: string, to: string): (r: seq<string>)
    ensures |r| == |columns|
    ensures forall i :: 0 <= i < |columns| ==> r[i] == if columns[i] == from then to else columns[i]
  {
    if columns == [] then []
    else [if columns[0] == from then to else columns[0]] + Rename(columns[1..], from, to)
  }

  /** The one rename the transaction dimension undergoes. */
  lemma TransactionColumnsRenamed()
    ensures Rename(SelectedTransactionColumns, "TransactionAmount (INR)", "TransactionAmount")
      == TransactionColumns
  {
  }

  /** `df[[CustomerID, CustomerDOB, CustGender, CustLocation, CustAccountBalance, Age]]`:
      one customer row per fact, in order, cells copied. */
  function CustomerDimension(facts: seq<Fact>): (dim: seq<CustomerRow>)
    ensures |dim| == |facts|
    ensures forall i :: 0 <= i < |facts| ==>
      var rec := facts[i].record;
      && dim[i].customerId == rec.customerId && dim[i].dob == rec.dob
      && dim[i].gender == rec.gender && dim[i].location == rec.location
      && dim[i].balance == rec.balance && dim[i].age == facts[i].age
  {
    seq(|facts|, i requires 0 <= i < |facts| =>
      var rec := facts[i].record;
      CustomerRow(rec.customerId, rec.dob, rec.gender, rec.location, rec.balance, facts[i].age))
  }

  /** `df[SelectedTransactionColumns]` renamed: one transaction row per fact,
      in order, cells copied. */
  function TransactionDimension(facts: seq<Fact>): (dim: seq<TransactionRow>)
    ensures |dim| == |facts|
    ensures forall i :: 0 <= i < |facts| ==>
      var rec := facts[i].record;
      && dim[i].transactionId == rec.transactionId && dim[i].txDate == rec.txDate
      && dim[i].txTime == rec.txTime && dim[i].amount == rec.amount
      && dim[i].customerId == rec.customerId
  {
    seq(|facts|, i requires 0 <= i < |facts| =>
      var rec := facts[i].record;
      TransactionRow(rec.transactionId, rec.txDate, rec.txTime, rec.amount, rec.customerId))
  }

  /** The transaction column `df['TransactionDate']`. */
  function TransactionDates(facts: seq<Fact>): (dates: seq<Timestamp>)
    ensures |dates| == |facts|
    ensures forall i :: 0 <= i < |facts| ==> dates[i] == facts[i].record.txDate
  {
    seq(|facts|, i requires 0 <= i < |facts| => facts[i].record.txDate)
  }

  // ---------------------------------------------------------------- time attributes

  const MonthNames: seq<string> :=
    ["January", "February", "March", "April", "May", "June", "July",
     "August", "September", "October", "November", "December"]

  /** `strftime('%B')` in the English locale. */
  function MonthName(m: int): string
    requires 1 <= m <= 12
  {
    MonthNames[m - 1]
  }

  lemma MonthNamesDistinct(m1: int, m2: int)
    requires 1 <= m1 <= 12 && 1 <= m2 <= 12 && m1 != m2
    ensures MonthName(m1) != MonthName(m2)
  {
  }

  /** `.dt.quarter`: the quarter whose three months contain `m`. */
  function Quarter(m: int): (q: int)
    requires 1 <= m <= 12
    ensures 1 <= q <= 4
    ensures 3 * (q - 1) < m <= 3 * q
  {
    (m - 1) / 3 + 1
  }

  /** `strftime('%Y%m%d')`. */
  function DateKeyText(d: Timestamp): string {
    ZeroPad(d.year, 4) + ZeroPad(d.month, 2) + ZeroPad(d.day, 2)
  }

  /** The `%Y%m%d` text of a timestamp reads back as its YYYYMMDD value. */
  lemma DateKeyTextValue(d: Timestamp)
    ensures AllDigits(DateKeyText(d))
    ensures ParseDigits(DateKeyText(d)) == d.year * 10000 + d.month * 100 + d.day
  {
    TimestampYearHasFourDigits(d);
    assert Pow10(2) == 100;
    assert Pow10(4) == 10000;
    var y, m, dd := ZeroPad(d.year, 4), ZeroPad(d.month, 2), ZeroPad(d.day, 2);
    assert |y| == 4 && ParseDigits(y) == d.year;
    assert |m| == 2 && ParseDigits(m) == d.month;
    assert |dd| == 2 && ParseDigits(dd) == d.day;
    ParseDigitsAppend(y, m);
    ParseDigitsAppend(y + m, dd);
  }

  /** `strftime('%Y%m%d').astype(int)`: the text read back as a number is the
      date's YYYYMMDD value. */
  function DateId(d: Timestamp): (k: int)
    ensures k == d.year * 10000 + d.month * 100 + d.day
  {
    DateKeyTextValue(d);
    ParseDigits(DateKeyText(d))
  }

  /** Reading a YYYYMMDD key as year, month and day. */
  function DateOfId(k: int): Date {
    Date(k / 10000, k / 100 % 100, k % 100)
  }

  lemma SplitByHundred(q: int, r: int)
    requires 0 <= r < 100
    ensures (q * 100 + r) / 100 == q && (q * 100 + r) % 100 == r
  {
  }

  lemma SplitByTenThousand(q: int, r: int)
    requires 0 <= r < 10000
    ensures (q * 10000 + r) / 10000 == q
  {
  }

  /** The key determines the date: decoding it gives the date back. */
  lemma DateIdRoundTrip(d: Timestamp)
    ensures DateOfId(DateId(d)) == d
  {
    var k := DateId(d);
    var ym := d.year * 100 + d.month;
    assert k == ym * 100 + d.day;
    SplitByHundred(ym, d.day);
    SplitByHundred(d.year, d.month);
    assert k == d.year * 10000 + (d.month * 100 + d.day);
    SplitByTenThousand(d.year, d.month * 100 + d.day);
  }

  /** Distinct dates receive distinct keys. */
  lemma DateIdInjective(d1: Timestamp, d2: Timestamp)
    requires d1 != d2
    ensures DateId(d1) != DateId(d2)
  {
    DateIdRoundTrip(d1);
    DateIdRoundTrip(d2);
  }

  // ---------------------------------------------------------------- time dimension

  datatype TimeRow = TimeRow(
    date: Timestamp, year: int, month: int, monthName: string, quarter: int, dateId: int)

  /** The attributes the time dimension adds to one date. */
  function TimeRowOf(d: Timestamp): TimeRow {
    TimeRow(d, d.year, d.month, MonthName(d.month), Quarter(d.month), DateId(d))
  }

  /** A time row carries its date, the date's year and month, the month's
      name, the quarter containing the month and the YYYYMMDD key. */
  lemma TimeRowOfAttributes(d: Timestamp)
    ensures var t := TimeRowOf(d);
      && t.date == d && t.year == d.year && t.month == d.month && 1 <= t.month <= 12
      && t.monthName == MonthName(d.month)
      && 1 <= t.quarter <= 4 && 3 * (t.quarter - 1) < t.month <= 3 * t.quarter
      && t.dateId == d.year * 10000 + d.month * 100 + d.day
  {
  }

  /** The time attributes of each date, one row per date, in order. */
  method AddTimeAttributes(dates: seq<Timestamp>) returns (times: seq<TimeRow>)
    ensures |times| == |dates|
    ensures forall i :: 0 <= i < |dates| ==> times[i] == TimeRowOf(dates[i])
  {
    times := [];
    var i := 0;
    while i < |dates|
      invariant 0 <= i <= |dates|
      invariant |times| == i
      invariant forall k :: 0 <= k < i ==> times[k] == TimeRowOf(dates[k])
    {
      times := times + [TimeRowOf(dates[i])];
      i := i + 1;
    }
  }

  /** The rows of a time dimension built from the distinct transaction dates
      are keyed by pairwise distinct dates and pairwise distinct DateIDs. */
  lemma TimeDimensionKeysAreUnique(txDates: seq<Timestamp>, times: seq<TimeRow>)
    requires times == TimeDimension(txDates)
    ensures forall i, j :: 0 <= i < j < |times| ==> times[i].date != times[j].date
    ensures forall i, j :: 0 <= i < j < |times| ==> times[i].dateId != times[j].dateId
  {
    var unique := Distinct(txDates);
    forall i, j | 0 <= i < j < |times|
      ensures times[i].date != times[j].date && times[i].dateId != times[j].dateId
    {
      assert times[i].date == unique[i] && times[j].date == unique[j];
      DateIdInjective(unique[i], unique[j]);
    }
  }

  /** Such a time dimension holds exactly the transaction dates, each row at
      the place of the date's first appearance. */
  lemma TimeDimensionCoversDates(txDates: seq<Timestamp>, times: seq<TimeRow>)
    requires |times| == |Distinct(txDates)|
    requires forall i :: 0 <= i < |times| ==> times[i] == TimeRowOf(Distinct(txDates)[i])
    ensures forall i :: 0 <= i < |times| ==> times[i].date in txDates
    ensures forall k :: 0 <= k < |txDates| ==> exists i :: 0 <= i < |times| && times[i].date == txDates[k]
    ensures forall i, j :: 0 <= i < j < |times| ==>
      IndexOf(txDates, times[i].date) < IndexOf(txDates, times[j].date)
  {
    var unique := Distinct(txDates);
    forall i | 0 <= i < |times| ensures times[i].date == unique[i] {
      assert times[i] == TimeRowOf(unique[i]);
    }
    DistinctKeepsFirstOccurrenceOrder(txDates);
    forall k | 0 <= k < |txDates|
      ensures exists i :: 0 <= i < |times| && times[i].date == txDates[k]
    {
      var i := IndexOf(unique, txDates[k]);
      assert times[i].date == txDates[k];
    }
  }

  /** One row per distinct date, in order of first appearance. */
  function TimeDimension(dates: seq<Timestamp>): (times: seq<TimeRow>)
    ensures |times| == |Distinct(dates)|
    ensures forall i :: 0 <= i < |times| ==> times[i] == TimeRowOf(Distinct(dates)[i])
  {
    var unique := Distinct(dates);
    seq(|unique|, i requires 0 <= i < |unique| => TimeRowOf(unique[i]))
  }

  /** `unique_dates` with its added columns (`unique()`, then one column per
      attribute). */
  method BuildTimeDimension(txDates: seq<Timestamp>) returns (times: seq<TimeRow>)
    ensures |times| == |Distinct(txDates)|
    ensures forall i :: 0 <= i < |times| ==> times[i] == TimeRowOf(Distinct(txDates)[i])
    ensures forall i, j :: 0 <= i < j < |times| ==> times[i].date != times[j].date
    ensures forall i, j :: 0 <= i < j < |times| ==> times[i].dateId != times[j].dateId
    ensures forall k :: 0 <= k < |txDates| ==> exists i :: 0 <= i < |times| && times[i].date == txDates[k]
    ensures times == TimeDimension(txDates)
  {
    var unique := DropDuplicates(txDates);
    times := AddTimeAttributes(unique);
    assert times == TimeDimension(txDates);
    TimeDimensionKeysAreUnique(txDates, times);
    TimeDimensionCoversDates(txDates, times);
  }
}
