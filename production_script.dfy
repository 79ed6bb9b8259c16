/** The production variant of the pipeline: it cleans the table, hands the
    cleaned table to the store as the fact table and derives the three
    dimension tables. */
module ProductionScript {
  import opened Records
  import opened Pipeline

  /** production_script.py:25-117. When no complete row is left for the
      century correction the run stops with `AttributeError`; otherwise the
      fact table it stores is the cleaned table and the dimensions are its
      star schema. */
  method Run(raw: seq<RawRow>) returns (outcome: Outcome<Tables>)
    ensures outcome.Raised? <==> forall k :: 0 <= k < |raw| ==> !IsComplete(raw[k])
    ensures outcome.Raised? ==> outcome.exception == "AttributeError"
    ensures outcome.Finished? ==> outcome.value == StarSchema(PreparedFacts(raw))
    ensures outcome.Finished? ==> ScriptPromises(raw, outcome.value)
  {
    CorrectionRaisesExactlyWithoutCompleteRows(raw);
    var prepared := Prepare(raw);
    match prepared
    case Raised(e) =>
      outcome := Raised(e);
    case Finished(facts) =>
      var tables := BuildDimensions(facts);
      ScriptTablesProperties(raw, tables);
      outcome := Finished(tables);
  }
}
