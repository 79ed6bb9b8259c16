/** The rows of the bank-transaction file: as read, where any cell may be
    missing, and once every cell is known to be present. */
module Records {
  import opened Calendar
  import opened Sequences

  datatype Option<T> = None | Some(value: T)

  /** Balances and amounts are carried from column to column and never
      computed with, so any exact number type serves. */
  type Amount = real

  /** One line of the input file, with its two date columns already parsed.
      `None` is a missing cell (`NaN`/`NaT`). */
  datatype RawRow = RawRow(
    customerId: Option<string>,          // CustomerID
    dob: Option<CalendarDate>,           // CustomerDOB
    gender: Option<string>,              // CustGender
    location: Option<string>,            // CustLocation
    balance: Option<Amount>,             // CustAccountBalance
    transactionId: Option<string>,       // TransactionID
    txDate: Option<Timestamp>,           // TransactionDate
    txTime: Option<int>,                 // TransactionTime
    amount: Option<Amount>)              // TransactionAmount (INR)

  /** A row in which every cell is present. */
  datatype Record = Record(
    customerId: string,
    dob: CalendarDate,
    gender: string,
    location: string,
    balance: Amount,
    transactionId: string,
    txDate: Timestamp,
    txTime: int,
    amount: Amount)

  /** `dropna()`'s test: no cell of the row is missing. */
  predicate IsComplete(r: RawRow) {
    && r.customerId.Some? && r.dob.Some? && r.gender.Some? && r.location.Some?
    && r.balance.Some? && r.transactionId.Some? && r.txDate.Some? && r.txTime.Some?
    && r.amount.Some?
  }

  /** A record seen as a raw row again: every cell present. */
  function ToRaw(rec: Record): (r: RawRow)
    ensures IsComplete(r)
  {
    RawRow(Some(rec.customerId), Some(rec.dob), Some(rec.gender), Some(rec.location),
           Some(rec.balance), Some(rec.transactionId), Some(rec.txDate), Some(rec.txTime),
           Some(rec.amount))
  }

  /** The record a complete row holds: no cell is lost or altered. */
  function ToRecord(r: RawRow): (rec: Record)
    requires IsComplete(r)
    ensures ToRaw(rec) == r
  {
    Record(r.customerId.value, r.dob.value, r.gender.value, r.location.value,
           r.balance.value, r.transactionId.value, r.txDate.value, r.txTime.value,
           r.amount.value)
  }

  lemma ToRecordOfToRaw(rec: Record)
    ensures ToRecord(ToRaw(rec)) == rec
  {
  }

  function Lift(records: seq<Record>): (rows: seq<RawRow>)
    ensures |rows| == |records|
    ensures forall i :: 0 <= i < |records| ==> rows[i] == ToRaw(records[i])
  {
    seq(|records|, i requires 0 <= i < |records| => ToRaw(records[i]))
  }

  /** Seen as raw rows, two record tables are equal only if they are equal. */
  lemma LiftInjective(a: seq<Record>, b: seq<Record>)
    requires Lift(a) == Lift(b)
    ensures a == b
  {
    assert |a| == |b|;
    forall i | 0 <= i < |a| ensures a[i] == b[i] {
      ToRecordOfToRaw(a[i]);
      ToRecordOfToRaw(b[i]);
    }
  }

  /** The records the complete rows of `rows` hold, in their original order.
      Seen as raw rows again they are exactly the rows `dropna` keeps. */
  function CompleteRecords(rows: seq<RawRow>): (records: seq<Record>)
    ensures Lift(records) == Filter(IsComplete, rows)
  {
    var complete := Filter(IsComplete, rows);
    var records := seq(|complete|, i requires 0 <= i < |complete| => ToRecord(complete[i]));
    assert Lift(records) == complete;
    records
  }

  /** `df.dropna()`: the complete rows, in their original order, each as the
      record it holds. */
  method DropMissing(rows: seq<RawRow>) returns (records: seq<Record>)
    ensures Lift(records) == Filter(IsComplete, rows)
    ensures records == CompleteRecords(rows)
  {
    records := [];
    var i := 0;
    while i < |rows|
      invariant 0 <= i <= |rows|
      invariant Lift(records) == Filter(IsComplete, rows[..i])
    {
      assert rows[..i + 1][..i] == rows[..i];
      if IsComplete(rows[i]) {
        assert Lift(records + [ToRecord(rows[i])]) == Lift(records) + [rows[i]];
        records := records + [ToRecord(rows[i])];
      }
      i := i + 1;
    }
    assert rows[..|rows|] == rows;
    LiftInjective(records, CompleteRecords(rows));
  }

  /** What `DropMissing` keeps is exactly the complete rows: each record comes
      from a complete input row, and each complete input row is kept. */
  lemma {:induction false} DropMissingKeepsExactlyCompleteRows(rows: seq<RawRow>, records: seq<Record>)
    requires Lift(records) == Filter(IsComplete, rows)
    ensures |records| <= |rows|
    ensures forall k :: 0 <= k < |records| ==> ToRaw(records[k]) in rows
    ensures forall i :: 0 <= i < |rows| && IsComplete(rows[i]) ==> ToRecord(rows[i]) in records
  {
    var lifted := Lift(records);
    forall i | 0 <= i < |rows| && IsComplete(rows[i])
      ensures ToRecord(rows[i]) in records
    {
      assert rows[i] in lifted;
      var k :| 0 <= k < |lifted| && lifted[k] == rows[i];
      ToRecordOfToRaw(records[k]);
    }
    forall k | 0 <= k < |records| ensures ToRaw(records[k]) in rows {
      assert lifted[k] == ToRaw(records[k]);
    }
  }

  /** The two cleaning steps together (`drop_duplicates`, then `dropna`). */
  function CleanRows(rows: seq<RawRow>): seq<RawRow> {
    Filter(IsComplete, Distinct(rows))
  }

  /** Cleaning a cleaned table changes nothing: it has no duplicate and no
      incomplete row left. */
  lemma CleaningIdempotent(rows: seq<RawRow>)
    ensures NoDuplicates(CleanRows(rows))
    ensures forall i :: 0 <= i < |CleanRows(rows)| ==> IsComplete(CleanRows(rows)[i])
    ensures CleanRows(CleanRows(rows)) == CleanRows(rows)
  {
    var once := CleanRows(rows);
    FilterKeepsNoDuplicates(IsComplete, Distinct(rows));
    DistinctOfNoDuplicates(once);
    FilterIdempotent(IsComplete, Distinct(rows));
  }
}
