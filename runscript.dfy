/** The notebook variant of the pipeline: it cleans the table, checks that no
    row has a negative age and derives the three dimension tables. */
module RunScript {
  import opened Sequences
  import opened Records
  import opened Ages
  import opened Pipeline

  /** runscript.py:38-159. When no complete row is left for the century
      correction the run stops with `AttributeError`; otherwise it yields the
      star schema of the cleaned table, and the negative-age selection is
      empty. */
  method Run(raw: seq<RawRow>) returns (outcome: Outcome<Tables>, negativeAges: seq<Fact>)
    ensures outcome.Raised? <==> forall k :: 0 <= k < |raw| ==> !IsComplete(raw[k])
    ensures outcome.Raised? ==> outcome.exception == "AttributeError"
    ensures outcome.Finished? ==> outcome.value == StarSchema(PreparedFacts(raw))
    ensures outcome.Finished? ==> negativeAges == Filter(HasNegativeAge, outcome.value.facts)
    ensures negativeAges == []
    ensures outcome.Finished? ==> ScriptPromises(raw, outcome.value)
  {
    CorrectionRaisesExactlyWithoutCompleteRows(raw);
    var prepared := Prepare(raw);
    match prepared
    case Raised(e) =>
      outcome, negativeAges := Raised(e), [];
    case Finished(facts) =>
      negativeAges := Select(facts, HasNegativeAge);
      NoNegativeAges(facts);
      var tables := BuildDimensions(facts);
      ScriptTablesProperties(raw, tables);
      outcome := Finished(tables);
  }
}
