/** The cleaning stages and the star-schema derivation, in the order both
    scripts run them. */
module Pipeline {
  import opened Calendar
  import opened Sequences
  import opened Records
  import opened Ages
  import opened Schema

  /** How a run ends: an exception stops it, or it finishes with what it built. */
  datatype Outcome<T> = Raised(exception: string) | Finished(value: T)

  /** The cleaned transaction table and the three dimension tables. */
  datatype Tables = Tables(
    facts: seq<Fact>, customers: seq<CustomerRow>,
    transactions: seq<TransactionRow>, times: seq<TimeRow>)

  /** The record a complete input row becomes, if it survives. */
  function Cleaned(r: RawRow): Record
    requires IsComplete(r)
  {
    Corrected(ToRecord(r))
  }

  /** `rec` is what the cleaning stages make of some complete row of `raw`. */
  ghost predicate DerivedFrom(raw: seq<RawRow>, rec: Record) {
    exists k :: 0 <= k < |raw| && IsComplete(raw[k]) && rec == Cleaned(raw[k])
  }

  /** The century correction receives an empty table. On zero rows pandas'
      row-wise `apply` yields an empty float column, so `CustomerDOB` loses its
      date type and the `.dt` accessor of the first age filter raises
      `AttributeError`. */
  predicate CorrectionRaises(raw: seq<RawRow>) {
    CompleteRecords(Distinct(raw)) == []
  }

  /** The cleaned table with its Age column: duplicates removed, incomplete
      rows removed, birth dates corrected, the age window kept, in input order. */
  function PreparedFacts(raw: seq<RawRow>): seq<Fact> {
    FactsOf(Filter(InAgeWindow, CorrectedAll(CompleteRecords(Distinct(raw)))))
  }

  /** The three dimension tables derived from a cleaned table. */
  function StarSchema(facts: seq<Fact>): Tables {
    Tables(facts, CustomerDimension(facts), TransactionDimension(facts),
           TimeDimension(TransactionDates(facts)))
  }

  /** Following the stages back from a survivor to a complete input row. */
  lemma {:induction false} SurvivorsComeFromCompleteRows(
      raw: seq<RawRow>, rows: seq<RawRow>, records: seq<Record>,
      corrected: seq<Record>, kept: seq<Record>)
    requires rows == Distinct(raw)
    requires Lift(records) == Filter(IsComplete, rows)
    requires |corrected| == |records|
    requires forall i :: 0 <= i < |records| ==> corrected[i] == Corrected(records[i])
    requires kept == Filter(InAgeWindow, corrected)
    ensures forall i :: 0 <= i < |kept| ==> DerivedFrom(raw, kept[i])
  {
    forall i | 0 <= i < |kept| ensures DerivedFrom(raw, kept[i]) {
      var m :| 0 <= m < |corrected| && corrected[m] == kept[i];
      var lifted := Lift(records);
      assert lifted[m] == ToRaw(records[m]);
      assert lifted[m] in rows;
      ToRecordOfToRaw(records[m]);
      var k :| 0 <= k < |raw| && raw[k] == lifted[m];
      assert IsComplete(raw[k]) && kept[i] == Cleaned(raw[k]);
    }
  }

  /** Following the stages forward from a complete input row inside the age
      window to a survivor. */
  lemma {:induction false} WindowRowsSurvive(
      raw: seq<RawRow>, rows: seq<RawRow>, records: seq<Record>,
      corrected: seq<Record>, kept: seq<Record>)
    requires rows == Distinct(raw)
    requires Lift(records) == Filter(IsComplete, rows)
    requires |corrected| == |records|
    requires forall i :: 0 <= i < |records| ==> corrected[i] == Corrected(records[i])
    requires kept == Filter(InAgeWindow, corrected)
    ensures forall k :: 0 <= k < |raw| && IsComplete(raw[k]) && InAgeWindow(Cleaned(raw[k])) ==>
      Cleaned(raw[k]) in kept
  {
    DropMissingKeepsExactlyCompleteRows(rows, records);
    forall k | 0 <= k < |raw| && IsComplete(raw[k]) && InAgeWindow(Cleaned(raw[k]))
      ensures Cleaned(raw[k]) in kept
    {
      var j :| 0 <= j < |rows| && rows[j] == raw[k];
      var m :| 0 <= m < |records| && records[m] == ToRecord(rows[j]);
      assert corrected[m] == Cleaned(raw[k]);
    }
  }

  /** The Age column of rows inside the window, and the ties back to them. */
  lemma FactsOfSurvivors(kept: seq<Record>, facts: seq<Fact>)
    requires forall i :: 0 <= i < |kept| ==> InAgeWindow(kept[i])
    requires |facts| == |kept|
    requires forall i :: 0 <= i < |kept| ==>
      facts[i].record == kept[i] && facts[i].cutoff == CutoffDate(kept[i].txDate)
      && facts[i].age == kept[i].txDate.year - kept[i].dob.year
    ensures forall i :: 0 <= i < |facts| ==>
      var rec := facts[i].record;
      && facts[i].age == rec.txDate.year - rec.dob.year
      && 18 <= facts[i].age <= 100
      && rec.txDate.year - 100 <= rec.dob.year <= rec.txDate.year - 18
      && Precedes(rec.dob, rec.txDate)
      && facts[i].cutoff == CutoffDate(rec.txDate)
    ensures forall r :: r in kept ==> exists i :: 0 <= i < |facts| && facts[i].record == r
  {
    forall r | r in kept ensures exists i :: 0 <= i < |facts| && facts[i].record == r {
      var i := IndexOf(kept, r);
      assert facts[i].record == r;
    }
  }

  /** What the cleaned table holds: every row has its age inside the window
      and comes from a complete input row, and every complete input row whose
      corrected form is inside the window is there. */
  lemma PreparedFactsProperties(raw: seq<RawRow>, facts: seq<Fact>)
    requires facts == PreparedFacts(raw)
    ensures |facts| <= |raw|
    ensures forall i :: 0 <= i < |facts| ==>
      && 18 <= facts[i].age <= 100
      && facts[i].age == facts[i].record.txDate.year - facts[i].record.dob.year
      && facts[i].record.txDate.year - 100 <= facts[i].record.dob.year <= facts[i].record.txDate.year - 18
      && Precedes(facts[i].record.dob, facts[i].record.txDate)
      && facts[i].cutoff == CutoffDate(facts[i].record.txDate)
    ensures forall i :: 0 <= i < |facts| ==> DerivedFrom(raw, facts[i].record)
    ensures forall k :: 0 <= k < |raw| && IsComplete(raw[k]) && InAgeWindow(Cleaned(raw[k])) ==>
      exists i :: 0 <= i < |facts| && facts[i].record == Cleaned(raw[k])
  {
    var rows := Distinct(raw);
    var records := CompleteRecords(rows);
    var corrected := CorrectedAll(records);
    var kept := Filter(InAgeWindow, corrected);
    assert |Lift(records)| == |records|;
    SurvivorsComeFromCompleteRows(raw, rows, records, corrected, kept);
    WindowRowsSurvive(raw, rows, records, corrected, kept);
    FactsOfSurvivors(kept, facts);
  }

  /** The run raises exactly when the input has no complete row. */
  lemma CorrectionRaisesExactlyWithoutCompleteRows(raw: seq<RawRow>)
    ensures CorrectionRaises(raw) <==> forall k :: 0 <= k < |raw| ==> !IsComplete(raw[k])
  {
    var rows := Distinct(raw);
    var lifted := Lift(CompleteRecords(rows));
    forall k | 0 <= k < |raw| && IsComplete(raw[k]) ensures !CorrectionRaises(raw) {
      assert raw[k] in rows;
      var j :| 0 <= j < |rows| && rows[j] == raw[k];
      assert rows[j] in lifted;
    }
    if !CorrectionRaises(raw) {
      var r := lifted[0];
      assert r in rows && IsComplete(r);
      var j :| 0 <= j < |rows| && rows[j] == r;
      assert r in raw;
    }
  }

  /** The customer and transaction rows of a star schema match index by
      index, and every transaction date has its row in the time dimension. */
  lemma StarSchemaRowsLineUp(facts: seq<Fact>, t: Tables)
    requires t == StarSchema(facts)
    ensures t.facts == facts
    ensures |t.customers| == |t.transactions| == |facts|
    ensures forall i :: 0 <= i < |facts| ==> t.transactions[i].customerId == t.customers[i].customerId
    ensures forall i :: 0 <= i < |facts| ==> t.customers[i].age == facts[i].age
    ensures forall i :: 0 <= i < |t.transactions| ==>
      exists j :: 0 <= j < |t.times| && t.times[j].date == t.transactions[i].txDate
  {
    var dates := TransactionDates(facts);
    var times := TimeDimension(dates);
    TimeDimensionCoversDates(dates, times);
    forall i | 0 <= i < |t.transactions|
      ensures exists j :: 0 <= j < |times| && times[j].date == t.transactions[i].txDate
    {
      assert dates[i] == t.transactions[i].txDate;
    }
  }

  /** The time rows of a star schema are transaction dates, pairwise distinct,
      with pairwise distinct keys, in order of first appearance. */
  lemma StarSchemaTimesAreKeyed(facts: seq<Fact>, t: Tables)
    requires t == StarSchema(facts)
    ensures forall j :: 0 <= j < |t.times| ==> t.times[j].date in TransactionDates(facts)
    ensures forall i, j :: 0 <= i < j < |t.times| ==>
      t.times[i].date != t.times[j].date && t.times[i].dateId != t.times[j].dateId
    ensures forall i, j :: 0 <= i < j < |t.times| ==>
      IndexOf(TransactionDates(facts), t.times[i].date) < IndexOf(TransactionDates(facts), t.times[j].date)
  {
    var dates := TransactionDates(facts);
    var times := TimeDimension(dates);
    assert t.times == times;
    TimeDimensionKeysAreUnique(dates, times);
    TimeDimensionCoversDates(dates, times);
  }

  /** What both scripts promise about the tables of a finished run: the
      cleaned rows have their age inside the window, come from complete input
      rows and include every complete input row inside the window; customer
      and transaction rows line up with them; every transaction date has its
      time row; time rows have distinct dates and distinct keys. */
  ghost predicate ScriptPromises(raw: seq<RawRow>, t: Tables) {
    && |t.facts| <= |raw|
    && |t.customers| == |t.transactions| == |t.facts|
    && (forall i :: 0 <= i < |t.facts| ==>
         && 18 <= t.facts[i].age <= 100
         && t.facts[i].age == t.facts[i].record.txDate.year - t.facts[i].record.dob.year
         && t.customers[i].age == t.facts[i].age
         && Precedes(t.facts[i].record.dob, t.facts[i].record.txDate)
         && DerivedFrom(raw, t.facts[i].record))
    && (forall k :: 0 <= k < |raw| && IsComplete(raw[k]) && InAgeWindow(Cleaned(raw[k])) ==>
         exists i :: 0 <= i < |t.facts| && t.facts[i].record == Cleaned(raw[k]))
    && (forall i :: 0 <= i < |t.transactions| ==>
         && t.transactions[i].customerId == t.customers[i].customerId
         && exists j :: 0 <= j < |t.times| && t.times[j].date == t.transactions[i].txDate)
    && (forall i, j :: 0 <= i < j < |t.times| ==>
         t.times[i].date != t.times[j].date && t.times[i].dateId != t.times[j].dateId)
  }

  /** The star schema of the cleaned table keeps those promises. */
  lemma ScriptTablesProperties(raw: seq<RawRow>, t: Tables)
    requires t == StarSchema(PreparedFacts(raw))
    ensures ScriptPromises(raw, t)
  {
    PreparedFactsProperties(raw, t.facts);
    StarSchemaRowsLineUp(t.facts, t);
    StarSchemaTimesAreKeyed(t.facts, t);
  }

  /** runscript.py:38-81 (production_script.py:25-68): remove duplicate rows,
      remove incomplete rows, correct the birth century, keep the rows inside
      the age window and add the Age column. */
  method Prepare(raw: seq<RawRow>) returns (outcome: Outcome<seq<Fact>>)
    ensures outcome.Raised? <==> CorrectionRaises(raw)
    ensures outcome.Raised? ==> outcome.exception == "AttributeError"
    ensures outcome.Finished? ==> outcome.value == PreparedFacts(raw)
  {
    var rows := DropDuplicates(raw);
    var records := DropMissing(rows);
    if |records| == 0 {
      return Raised("AttributeError");
    }
    var corrected := CorrectBirthDates(records);
    var withinCentury := Select(corrected, BornWithinCentury);
    var kept := Select(withinCentury, OfAdultAge);
    var facts := AddAge(kept);
    AgeFiltersSelectWindow(corrected);
    outcome := Finished(facts);
  }

  /** runscript.py:133-159 (production_script.py:91-117): the three dimension
      tables. */
  method BuildDimensions(facts: seq<Fact>) returns (tables: Tables)
    ensures tables == StarSchema(facts)
  {
    var customers := CustomerDimension(facts);
    var transactions := TransactionDimension(facts);
    var times := BuildTimeDimension(TransactionDates(facts));
    tables := Tables(facts, customers, transactions, times);
  }

  /** Duplicates are removed before the century correction, so two different
      input rows can still leave two equal rows: one whose birth year was read
      a century late and one that was read right. */
  lemma CorrectionCanRecreateDuplicates()
    ensures exists r1: RawRow, r2: RawRow ::
      && IsComplete(r1) && IsComplete(r2) && r1 != r2
      && Cleaned(r1) == Cleaned(r2) && InAgeWindow(Cleaned(r1))
  {
    var tx: Timestamp := Date(2023, 6, 15);
    var late: CalendarDate := Date(2085, 1, 1);
    var right: CalendarDate := Date(1985, 1, 1);
    var r1 := RawRow(Some("C1"), Some(late), Some("F"), Some("MUMBAI"), Some(100.0),
                     Some("T1"), Some(tx), Some(143207), Some(25.0));
    var r2 := r1.(dob := Some(right));
    assert Cleaned(r1).dob == right;
    assert Cleaned(r1) == Cleaned(r2);
  }
}
